/**
 * The table grid: a rows-by-columns store of strings with row and column
 * headers, a selected cell, keyboard navigation that scrolls to follow
 * the selection, and in-place editing through a single-line text box.
 * The scroll bars hold floating-point values and are not modelled; the
 * offsets they set through their change callbacks are given as a
 * `BarResponse` and land in the grid's own `scrollRow` and `scrollCol`.
 * The grid's absolute position is passed to the hit tests as `absX` and
 * `absY`. Calls of the cell-change callback are recorded in `changes`.
 */
module TableGrid {
  import opened Common
  import opened Keys
  import TextBox
  import TextLine
  import WidgetBase

  const ScrollBarWidth: int := 20
  const DefaultRowHeight: int := 30
  const DefaultHeaderHeight: int := 30
  const DefaultHeaderWidth: int := 50
  const DefaultColumnWidth: int := 100

  /** One call of the cell-change callback. */
  datatype CellChange = CellChange(row: int, col: int, value: string)

  datatype Grid = Grid(
    width: int, height: int,
    cells: seq<seq<string>>, rows: int, cols: int,
    selRow: int, selCol: int, hoverRow: int, hoverCol: int,
    editor: TextBox.Box, editorFrame: WidgetBase.Frame, editing: bool,
    scrollRow: int, scrollCol: int, visibleRows: int, visibleCols: int,
    rowHeight: int, headerHeight: int, headerWidth: int,
    colWidths: seq<int>, defaultWidth: int,
    hasCallback: bool, changes: seq<CellChange>)

  /** Every width is positive. */
  predicate Positive(ws: seq<int>) {
    forall i :: 0 <= i < |ws| ==> ws[i] > 0
  }

  /** The store holds `rows` rows of `cols` cells, and there is one width per column. */
  predicate Shape(g: Grid) {
    g.rows >= 0 && g.cols >= 0 && |g.cells| == g.rows && |g.colWidths| == g.cols &&
    forall r :: 0 <= r < |g.cells| ==> |g.cells[r]| == g.cols
  }

  /**
   * The state the grid keeps: the shape, positive sizes, offsets that
   * never go negative, a selection of -1 or more, and a valid editor.
   * The selection may lie past the last row or column after a shrink.
   */
  predicate Valid(g: Grid) {
    Shape(g) && Positive(g.colWidths) && g.defaultWidth > 0 &&
    g.rowHeight > 0 && g.headerHeight > 0 && g.headerWidth > 0 &&
    g.scrollRow >= 0 && g.scrollCol >= 0 && g.selRow >= -1 && g.selCol >= -1 &&
    TextBox.Valid(g.editor)
  }

  /** A cell of the store. */
  predicate InRange(g: Grid, row: int, col: int) {
    0 <= row < g.rows && 0 <= col < g.cols
  }

  /*
   * Column layout.
   */

  /**
   * The number of columns from `c` on that fit, left to right, in the
   * room left after `used` pixels of `avail`: the loop of
   * `calculateVisibleCells`, which stops at the first column that would
   * overflow.
   */
  function Fit(ws: seq<int>, c: nat, used: int, avail: int): (k: nat)
    ensures k == 0 || c + k <= |ws|
    decreases |ws| - c
  {
    if c >= |ws| || used + ws[c] > avail then 0 else 1 + Fit(ws, c + 1, used + ws[c], avail)
  }

  /**
   * The column under `relX` pixels right of where column `c` starts at
   * `at`: the loop of `getCellAtPosition`, or -1 past the last column.
   */
  function ColumnAt(ws: seq<int>, c: nat, at: int, relX: int): (r: int)
    ensures r == -1 || c <= r < |ws|
    decreases |ws| - c
  {
    if c >= |ws| then -1
    else if at <= relX < at + ws[c] then c
    else ColumnAt(ws, c + 1, at + ws[c], relX)
  }

  /** `getColumnWidth`: the stored width of a column, the default for any other index. */
  function ColumnWidth(g: Grid, col: int): (w: int)
    ensures 0 <= col < |g.colWidths| ==> w == g.colWidths[col]
    ensures !(0 <= col < |g.colWidths|) ==> w == g.defaultWidth
  {
    if 0 <= col < |g.colWidths| then g.colWidths[col] else g.defaultWidth
  }

  /**
   * `calculateVisibleCells`: the whole rows that fit under the header and
   * the columns from the scroll offset that fit beside it (two pixels go
   * to the border).
   */
  function CalculateVisible(g: Grid): (r: Grid)
    requires Valid(g)
    ensures Valid(r) && r == g.(visibleRows := r.visibleRows, visibleCols := r.visibleCols)
    ensures r.visibleRows == CDiv(g.height - g.headerHeight - 2, g.rowHeight)
    ensures r.visibleCols == Fit(g.colWidths, g.scrollCol, 0, g.width - g.headerWidth - 2)
  {
    g.(visibleRows := CDiv(g.height - g.headerHeight - 2, g.rowHeight),
       visibleCols := Fit(g.colWidths, g.scrollCol, 0, g.width - g.headerWidth - 2))
  }

  /** The loop of `calculateVisibleCells` that counts the columns that fit. */
  method CountVisibleColumns(ws: seq<int>, from: nat, contentWidth: int) returns (count: nat)
    requires Positive(ws) && from <= |ws|
    ensures from + count <= |ws|
    ensures count > 0 ==> Sum(ws[from..from + count]) <= contentWidth
    ensures forall j :: from + count < j <= |ws| ==> Sum(ws[from..j]) > contentWidth
  {
    count := 0;
    var currentWidth := 0;
    var c := from;
    while c < |ws|
      invariant from <= c <= |ws| && c == from + count
      invariant currentWidth == Sum(ws[from..c])
      invariant Fit(ws, from, 0, contentWidth) == count + Fit(ws, c, currentWidth, contentWidth)
      decreases |ws| - c
    {
      var colWidth := ws[c];
      if currentWidth + colWidth > contentWidth {
        break;
      }
      SumSnoc(ws, from, c);
      currentWidth := currentWidth + colWidth;
      count := count + 1;
      c := c + 1;
    }
    FitIsLargest(ws, from, contentWidth);
  }

  /**
   * `updateScrollBars`: recount the visible cells, and scroll back to the
   * start along an axis whose cells all fit.
   */
  function UpdateScroll(g: Grid): (r: Grid)
    requires Valid(g)
    ensures Valid(r) && r.cells == g.cells && r.selRow == g.selRow && r.selCol == g.selCol
    ensures r.editing == g.editing && r.editor == g.editor && r.changes == g.changes
    ensures r.rows == g.rows && r.cols == g.cols && r.colWidths == g.colWidths
    ensures r.visibleRows == CalculateVisible(g).visibleRows && r.visibleCols == CalculateVisible(g).visibleCols
    ensures r.scrollRow == (if g.rows > r.visibleRows then g.scrollRow else 0)
    ensures r.scrollCol == (if g.cols > r.visibleCols then g.scrollCol else 0)
  {
    var v := CalculateVisible(g);
    v.(scrollRow := if v.rows > v.visibleRows then v.scrollRow else 0,
       scrollCol := if v.cols > v.visibleCols then v.scrollCol else 0)
  }

  /**
   * The constructor: a rows-by-columns store of empty strings, default
   * sizes, nothing selected, then the widget shrunk or grown to fit its
   * whole visible rows and columns plus headers, borders and scroll bars.
   * A negative count makes the store's resize throw, so both counts are
   * required not to be negative.
   */
  function New(width: int, height: int, rows: int, cols: int, hasCallback: bool): (g: Grid)
    requires rows >= 0 && cols >= 0
    ensures Valid(g) && g.rows == rows && g.cols == cols && !g.editing && g.changes == []
    ensures forall r, c :: InRange(g, r, c) ==> g.cells[r][c] == ""
    ensures forall c :: 0 <= c < cols ==> ColumnWidth(g, c) == DefaultColumnWidth
    ensures g.selRow == -1 && g.selCol == -1 && g.scrollRow == 0 && g.scrollCol == 0
  {
    var g0 := Grid(width, height, Repeat(Repeat("", cols), rows), rows, cols, -1, -1, -1, -1,
                   TextBox.New(false), WidgetBase.Frame(0, 0, 100, DefaultRowHeight), false,
                   0, 0, 0, 0, DefaultRowHeight, DefaultHeaderHeight, DefaultHeaderWidth,
                   Repeat(DefaultColumnWidth, cols), DefaultColumnWidth, hasCallback, []);
    var v := CalculateVisible(g0);
    var contentWidth := Sum(v.colWidths[..v.visibleCols]);
    var contentHeight := v.visibleRows * v.rowHeight;
    var sized := v.(width := 1 + v.headerWidth + contentWidth + ScrollBarWidth + 1,
                    height := 1 + v.headerHeight + contentHeight + ScrollBarWidth + 1);
    UpdateScroll(sized)
  }

  /*
   * The store.
   */

  /** `getCellValue`: the cell's text, or "" outside the store. */
  function GetCell(g: Grid, row: int, col: int): (v: string)
    requires Shape(g)
    ensures !InRange(g, row, col) ==> v == ""
  {
    if InRange(g, row, col) then g.cells[row][col] else ""
  }

  /** `setCellValue`: write one cell; a write outside the store is ignored. */
  function SetCell(g: Grid, row: int, col: int, value: string): (r: Grid)
    requires Shape(g)
    ensures Shape(r) && r == g.(cells := r.cells)
    ensures !InRange(g, row, col) ==> r == g
    ensures InRange(g, row, col) ==> GetCell(r, row, col) == value
    ensures forall i, j :: InRange(g, i, j) && (i, j) != (row, col) ==> GetCell(r, i, j) == GetCell(g, i, j)
  {
    if InRange(g, row, col) then g.(cells := g.cells[row := g.cells[row][col := value]]) else g
  }

  /**
   * `setRowCount`: a count below 1 is ignored; otherwise rows are dropped
   * from the end or appended with `cols` empty cells, and the scroll state
   * is updated. The selection is left as it was.
   */
  function SetRowCount(g: Grid, n: int): (r: Grid)
    requires Valid(g)
    ensures Valid(r)
    ensures n < 1 ==> r == g
    ensures n >= 1 ==> r.rows == n && r.cols == g.cols && r.selRow == g.selRow && r.selCol == g.selCol
    ensures n >= 1 ==> forall i, j :: 0 <= i < Min(n, g.rows) && 0 <= j < g.cols ==> r.cells[i][j] == g.cells[i][j]
    ensures n >= 1 ==> forall i, j :: g.rows <= i < n && 0 <= j < g.cols ==> r.cells[i][j] == ""
  {
    if n < 1 then g
    else
      var kept := g.cells[..Min(n, g.rows)];
      var cells := kept + Repeat(Repeat("", g.cols), n - |kept|);
      UpdateScroll(g.(cells := cells, rows := n))
  }

  /** One row resized to `n` cells: cut, or padded with empty strings. */
  function Resize(row: seq<string>, n: nat): (r: seq<string>)
    ensures |r| == n
    ensures forall j :: 0 <= j < Min(n, |row|) ==> r[j] == row[j]
    ensures forall j :: |row| <= j < n ==> r[j] == ""
  {
    if n <= |row| then row[..n] else row + Repeat("", n - |row|)
  }

  /**
   * `setColCount`: a count below 1 is ignored; otherwise every row is cut
   * or padded with empty cells, new columns get the default width, and the
   * scroll state is updated.
   */
  function SetColCount(g: Grid, n: int): (r: Grid)
    requires Valid(g)
    ensures Valid(r)
    ensures n < 1 ==> r == g
    ensures n >= 1 ==> r.cols == n && r.rows == g.rows && r.selRow == g.selRow && r.selCol == g.selCol
    ensures n >= 1 ==> forall i, j :: 0 <= i < g.rows && 0 <= j < Min(n, g.cols) ==> r.cells[i][j] == g.cells[i][j]
    ensures n >= 1 ==> forall i, j :: 0 <= i < g.rows && g.cols <= j < n ==> r.cells[i][j] == ""
    ensures n >= 1 ==> forall j :: 0 <= j < Min(n, g.cols) ==> ColumnWidth(r, j) == ColumnWidth(g, j)
    ensures n >= 1 ==> forall j :: g.cols <= j < n ==> ColumnWidth(r, j) == g.defaultWidth
  {
    if n < 1 then g
    else
      var cells := seq(g.rows, i requires 0 <= i < g.rows => Resize(g.cells[i], n));
      var widths := if n <= g.cols then g.colWidths[..n] else g.colWidths + Repeat(g.defaultWidth, n - g.cols);
      UpdateScroll(g.(cells := cells, cols := n, colWidths := widths))
  }

  /** `setColumnWidth`: only for an existing column and a positive width. */
  function SetColumnWidth(g: Grid, col: int, w: int): (r: Grid)
    requires Valid(g)
    ensures Valid(r) && r.cells == g.cells && r.cols == g.cols
    ensures !(0 <= col < g.cols && w > 0) ==> r == g
    ensures 0 <= col < g.cols && w > 0 ==>
      ColumnWidth(r, col) == w && forall j :: j != col ==> ColumnWidth(r, j) == ColumnWidth(g, j)
  {
    if 0 <= col < |g.colWidths| && w > 0 then UpdateScroll(g.(colWidths := g.colWidths[col := w])) else g
  }

  /** `setDefaultColumnWidth`: only a positive width; it applies to columns added later. */
  function SetDefaultColumnWidth(g: Grid, w: int): (r: Grid)
    requires Valid(g)
    ensures Valid(r) && r.colWidths == g.colWidths
    ensures w > 0 ==> r.defaultWidth == w
    ensures w <= 0 ==> r == g
  {
    if w > 0 then g.(defaultWidth := w) else g
  }

  /** `setRowHeight`, `setHeaderHeight`, `setHeaderWidth`: only a positive size, then the scroll state is updated. */
  function SetRowHeight(g: Grid, h: int): (r: Grid)
    requires Valid(g)
    ensures Valid(r) && r.cells == g.cells
    ensures h > 0 ==> r.rowHeight == h && r.visibleRows == CDiv(g.height - g.headerHeight - 2, h)
    ensures h <= 0 ==> r == g
  {
    if h > 0 then UpdateScroll(g.(rowHeight := h)) else g
  }

  function SetHeaderHeight(g: Grid, h: int): (r: Grid)
    requires Valid(g)
    ensures Valid(r) && r.cells == g.cells
    ensures h > 0 ==> r.headerHeight == h && r.visibleRows == CDiv(g.height - h - 2, g.rowHeight)
    ensures h <= 0 ==> r == g
  {
    if h > 0 then UpdateScroll(g.(headerHeight := h)) else g
  }

  function SetHeaderWidth(g: Grid, w: int): (r: Grid)
    requires Valid(g)
    ensures Valid(r) && r.cells == g.cells
    ensures w > 0 ==> r.headerWidth == w && r.visibleCols == Fit(g.colWidths, g.scrollCol, 0, g.width - w - 2)
    ensures w <= 0 ==> r == g
  {
    if w > 0 then UpdateScroll(g.(headerWidth := w)) else g
  }

  /** `setSelectedCell`: only a cell of the store can be selected. */
  function SetSelectedCell(g: Grid, row: int, col: int): (r: Grid)
    ensures InRange(g, row, col) ==> r == g.(selRow := row, selCol := col)
    ensures !InRange(g, row, col) ==> r == g
  {
    if InRange(g, row, col) then g.(selRow := row, selCol := col) else g
  }

  /*
   * Editing.
   */

  /** `getCellX` relative to the grid: past the border and the row headers, then the widths from the scroll offset. */
  function CellX(g: Grid, col: int): (x: int)
    requires Valid(g)
    ensures g.scrollCol <= col <= g.cols ==> x == 1 + g.headerWidth + Sum(g.colWidths[g.scrollCol..col])
  {
    var last := Min(col, g.cols);
    if g.scrollCol <= last then 1 + g.headerWidth + Sum(g.colWidths[g.scrollCol..last]) else 1 + g.headerWidth
  }

  /** `getCellY` relative to the grid. */
  function CellY(g: Grid, row: int): int
  {
    1 + g.headerHeight + (row - g.scrollRow) * g.rowHeight
  }

  /**
   * `startCellEdit`: only for a cell of the store. The cell is selected,
   * the editor is placed one pixel inside it, given the cell's text and
   * focused.
   */
  function StartEdit(g: Grid, row: int, col: int): (r: Grid)
    requires Valid(g)
    ensures Valid(r) && r.cells == g.cells && r.changes == g.changes && r.rows == g.rows && r.cols == g.cols
    ensures !InRange(g, row, col) ==> r == g
    ensures InRange(g, row, col) ==>
      r.editing && r.selRow == row && r.selCol == col && r.editor.focused &&
      r.editor.line.text == g.cells[row][col] && r.editor.line.cursor == |g.cells[row][col]|
  {
    if !InRange(g, row, col) then g
    else
      var frame := WidgetBase.Frame(CellX(g, col) + 1, CellY(g, row) + 1, ColumnWidth(g, col) - 2, g.rowHeight - 2);
      g.(editing := true, selRow := row, selCol := col, editorFrame := frame,
         editor := TextBox.SetFocus(TextBox.SetText(g.editor, g.cells[row][col]), true))
  }

  /**
   * `commitCellEdit` as written: while editing with a selection, the
   * editor's text is written to the selected cell, reported, and editing
   * ends. The write is not range-checked; `None` stands for a write past
   * the end of the store, which is undefined behaviour.
   */
  function CommitAsWritten(g: Grid): (r: Option<Grid>)
    requires Valid(g)
    ensures !g.editing || g.selRow < 0 || g.selCol < 0 ==> r == Some(g)
    ensures r.None? <==> g.editing && g.selRow >= 0 && g.selCol >= 0 && !InRange(g, g.selRow, g.selCol)
  {
    if !g.editing || g.selRow < 0 || g.selCol < 0 then Some(g)
    else if !InRange(g, g.selRow, g.selCol) then None
    else Some(Commit(g))
  }

  /**
   * `commitCellEdit`, corrected: the editor's text is written to the
   * selected cell, reported, and editing ends. When the selected cell no
   * longer exists, the edit is dropped: editing ends with no write and no
   * report. Without a selection nothing happens, as in the source.
   */
  function Commit(g: Grid): (r: Grid)
    requires Valid(g)
    ensures Valid(r) && r.rows == g.rows && r.cols == g.cols
    ensures r.selRow == g.selRow && r.selCol == g.selCol
    ensures !g.editing || g.selRow < 0 || g.selCol < 0 ==> r == g
    ensures g.editing && g.selRow >= 0 && g.selCol >= 0 ==> !r.editing
    ensures g.editing && InRange(g, g.selRow, g.selCol) ==>
      r.cells == SetCell(g, g.selRow, g.selCol, g.editor.line.text).cells &&
      r.changes == g.changes + (if g.hasCallback then [CellChange(g.selRow, g.selCol, g.editor.line.text)] else [])
    ensures g.editing && !InRange(g, g.selRow, g.selCol) ==> r.cells == g.cells && r.changes == g.changes
  {
    if !g.editing || g.selRow < 0 || g.selCol < 0 then g
    else if !InRange(g, g.selRow, g.selCol) then
      g.(editing := false, editor := TextBox.SetFocus(g.editor, false))
    else
      var text := g.editor.line.text;
      var w := SetCell(g, g.selRow, g.selCol, text);
      w.(changes := g.changes + (if g.hasCallback then [CellChange(g.selRow, g.selCol, text)] else []),
         editing := false, editor := TextBox.SetFocus(g.editor, false))
  }

  /**
   * `handleChar` as written: while editing the character goes to the
   * editor; otherwise a printable character with a selection starts
   * editing the selected cell and replaces its text with the character.
   * `startCellEdit` checks the range but the write after it does not;
   * `None` stands for that write landing past the end of the store.
   */
  function HandleCharAsWritten(g: Grid, code: int): (r: Option<Grid>)
    requires Valid(g)
    ensures r.None? <==>
      !g.editing && g.selRow >= 0 && g.selCol >= 0 && 32 <= code <= 126 && !InRange(g, g.selRow, g.selCol)
  {
    if g.editing then Some(g.(editor := TextBox.HandleChar(g.editor, code)))
    else if g.selRow >= 0 && g.selCol >= 0 && 32 <= code <= 126 then
      if !InRange(g, g.selRow, g.selCol) then None
      else Some(HandleChar(g, code))
    else Some(g)
  }

  /**
   * `handleChar`, corrected: a printable character starts editing only a
   * cell of the store, whose text it replaces; a selection left past the
   * end by a shrink is ignored, as `startCellEdit` ignores it.
   */
  function HandleChar(g: Grid, code: int): (r: Grid)
    requires Valid(g)
    ensures Valid(r) && r.rows == g.rows && r.cols == g.cols && r.changes == g.changes
    ensures g.editing ==> r == g.(editor := TextBox.HandleChar(g.editor, code))
    ensures !g.editing && InRange(g, g.selRow, g.selCol) && 32 <= code <= 126 ==>
      r.editing && r.editor.line.text == [code as char] && GetCell(r, g.selRow, g.selCol) == [code as char] &&
      forall i, j :: InRange(g, i, j) && (i, j) != (g.selRow, g.selCol) ==> GetCell(r, i, j) == GetCell(g, i, j)
    ensures !g.editing && !(InRange(g, g.selRow, g.selCol) && 32 <= code <= 126) ==> r == g
  {
    if g.editing then g.(editor := TextBox.HandleChar(g.editor, code))
    else if InRange(g, g.selRow, g.selCol) && 32 <= code <= 126 then
      var e := StartEdit(g, g.selRow, g.selCol);
      var w := SetCell(e, g.selRow, g.selCol, [code as char]);
      w.(editor := TextBox.SetText(w.editor, [code as char]))
    else g
  }

  /*
   * Keyboard.
   */

  /** Up: one row up unless on the first row; scroll up to the selection if it went above the offset. */
  function NavigateUp(g: Grid): (r: Grid)
    requires Valid(g)
    ensures Valid(r) && r.cells == g.cells && r.rows == g.rows && r.cols == g.cols && r.changes == g.changes
    ensures r.selCol == g.selCol && r.scrollCol == g.scrollCol
    ensures g.selRow > 0 ==> r.selRow == g.selRow - 1 && r.scrollRow == Min(g.scrollRow, r.selRow)
    ensures g.selRow <= 0 ==> r == g
  {
    if g.selRow > 0 then
      var s := g.selRow - 1;
      g.(selRow := s, scrollRow := if s < g.scrollRow then s else g.scrollRow)
    else g
  }

  /** Down: one row down unless on the last row; scroll so the selection is the last visible row if it went below. */
  function NavigateDown(g: Grid): (r: Grid)
    requires Valid(g)
    ensures Valid(r) && r.cells == g.cells && r.rows == g.rows && r.cols == g.cols && r.changes == g.changes
    ensures r.selCol == g.selCol && r.scrollCol == g.scrollCol
    ensures g.selRow < g.rows - 1 ==>
      r.selRow == g.selRow + 1 &&
      r.scrollRow == (if r.selRow >= g.scrollRow + g.visibleRows then r.selRow - g.visibleRows + 1 else g.scrollRow)
    ensures g.selRow >= g.rows - 1 ==> r == g
  {
    if g.selRow < g.rows - 1 then
      var s := g.selRow + 1;
      g.(selRow := s, scrollRow := if s >= g.scrollRow + g.visibleRows then s - g.visibleRows + 1 else g.scrollRow)
    else g
  }

  /** Left: one column left unless on the first; scroll left to the selection if it went past the offset. */
  function NavigateLeft(g: Grid): (r: Grid)
    requires Valid(g)
    ensures Valid(r) && r.cells == g.cells && r.rows == g.rows && r.cols == g.cols && r.changes == g.changes
    ensures r.selRow == g.selRow && r.scrollRow == g.scrollRow
    ensures g.selCol > 0 ==> r.selCol == g.selCol - 1 && r.scrollCol == Min(g.scrollCol, r.selCol)
    ensures g.selCol <= 0 ==> r == g
  {
    if g.selCol > 0 then
      var s := g.selCol - 1;
      g.(selCol := s, scrollCol := if s < g.scrollCol then s else g.scrollCol)
    else g
  }

  /**
   * Right: one column right unless on the last; the visible cells are
   * recounted and, if the selection has passed the visible columns, the
   * view scrolls by one column.
   */
  function NavigateRight(g: Grid): (r: Grid)
    requires Valid(g)
    ensures Valid(r) && r.cells == g.cells && r.rows == g.rows && r.cols == g.cols && r.changes == g.changes
    ensures r.selRow == g.selRow && r.scrollRow == g.scrollRow
    ensures g.selCol < g.cols - 1 ==>
      r.selCol == g.selCol + 1 &&
      r.scrollCol == (if r.selCol >= g.scrollCol + r.visibleCols then g.scrollCol + 1 else g.scrollCol)
    ensures g.selCol >= g.cols - 1 ==> r == g
  {
    if g.selCol < g.cols - 1 then
      var v := CalculateVisible(g.(selCol := g.selCol + 1));
      if v.selCol >= v.scrollCol + v.visibleCols then v.(scrollCol := v.scrollCol + 1) else v
    else g
  }

  /**
   * The navigation keys when not editing: the arrows move the selection
   * by one within the store and scroll to follow it, and Enter starts
   * editing the selected cell.
   */
  function Navigate(g: Grid, key: Key): (r: Grid)
    requires Valid(g)
    ensures Valid(r) && r.cells == g.cells && r.rows == g.rows && r.cols == g.cols && r.changes == g.changes
    ensures key.Up? ==> r == NavigateUp(g)
    ensures key.Down? ==> r == NavigateDown(g)
    ensures key.Left? ==> r == NavigateLeft(g)
    ensures key.Right? ==> r == NavigateRight(g)
    ensures key.Enter? ==> r == (if g.selRow >= 0 && g.selCol >= 0 then StartEdit(g, g.selRow, g.selCol) else g)
    ensures !(key.Up? || key.Down? || key.Left? || key.Right? || key.Enter?) ==> r == g
  {
    match key
    case Up => NavigateUp(g)
    case Down => NavigateDown(g)
    case Left => NavigateLeft(g)
    case Right => NavigateRight(g)
    case Enter => if g.selRow >= 0 && g.selCol >= 0 then StartEdit(g, g.selRow, g.selCol) else g
    case _ => g
  }

  /**
   * `handleKey`: only presses count. While editing, Enter and Tab commit
   * and then move the selection down or right by one when there is room,
   * Escape ends editing without writing, and every other key goes to the
   * editor. Otherwise the key navigates.
   */
  function HandleKey(g: Grid, key: Key, pressed: bool): (r: Grid)
    requires Valid(g)
    ensures Valid(r) && r.rows == g.rows && r.cols == g.cols
    ensures !pressed ==> r == g
    ensures pressed && !g.editing ==> r == Navigate(g, key)
    ensures pressed && g.editing && key.Escape? ==> r == g.(editing := false)
    ensures pressed && g.editing && (key.Enter? || key.Tab?) ==>
      r.editing == (g.selRow < 0 || g.selCol < 0) && r.cells == Commit(g).cells && r.changes == Commit(g).changes &&
      r.selRow == (if key.Enter? && g.selRow < g.rows - 1 then g.selRow + 1 else g.selRow) &&
      r.selCol == (if key.Tab? && g.selCol < g.cols - 1 then g.selCol + 1 else g.selCol)
    ensures pressed && g.editing && !(key.Enter? || key.Tab? || key.Escape?) ==>
      r == g.(editor := TextBox.HandleKey(g.editor, key, true))
  {
    if !pressed then g
    else if g.editing then
      match key
      case Enter =>
        var c := Commit(g);
        if c.selRow < c.rows - 1 then c.(selRow := c.selRow + 1) else c
      case Tab =>
        var c := Commit(g);
        if c.selCol < c.cols - 1 then c.(selCol := c.selCol + 1) else c
      case Escape => g.(editing := false)
      case _ => g.(editor := TextBox.HandleKey(g.editor, key, true))
    else Navigate(g, key)
  }

  /** `selectAll` and `hasSelection` reach the editor only while editing. */
  function SelectAll(g: Grid): (r: Grid)
    requires Valid(g)
    ensures Valid(r) && r.cells == g.cells
    ensures g.editing ==> r == g.(editor := TextBox.SelectAll(g.editor))
    ensures !g.editing ==> r == g
  {
    if g.editing then g.(editor := TextBox.SelectAll(g.editor)) else g
  }

  function HasSelection(g: Grid): (r: bool)
    ensures r <==> g.editing && TextLine.HasSelection(g.editor.line)
  {
    g.editing && TextLine.HasSelection(g.editor.line)
  }

  /*
   * Mouse.
   */

  /**
   * What `getCellAtPosition` reports: whether a cell was hit, and the row
   * and column it wrote to its output parameters (-1 where it wrote
   * nothing, as `checkHover` initialises them).
   */
  datatype Hit = Hit(ok: bool, row: int, col: int)

  /**
   * `getCellAtPosition`. The row is found from the scroll offset and the
   * row height, and written out before it is range-checked; the column is
   * then found by walking the widths from the scroll offset. Both tests
   * leave out the scroll bars' strips at the right and bottom.
   */
  function CellAt(g: Grid, absX: int, absY: int, mouseX: int, mouseY: int): (h: Hit)
    requires Valid(g)
    ensures h.ok ==> InRange(g, h.row, h.col)
    ensures h.ok ==>
      absY + g.headerHeight + (h.row - g.scrollRow) * g.rowHeight <= mouseY <
        absY + g.headerHeight + (h.row - g.scrollRow + 1) * g.rowHeight
    ensures h.ok ==> mouseY < absY + g.height - ScrollBarWidth && mouseX < absX + g.width - ScrollBarWidth
  {
    if mouseY < absY + g.headerHeight || mouseY >= absY + g.height - ScrollBarWidth then Hit(false, -1, -1)
    else
      var relY := mouseY - (absY + g.headerHeight);
      var row := g.scrollRow + relY / g.rowHeight;
      if row < 0 || row >= g.rows then Hit(false, row, -1)
      else if mouseX < absX + g.headerWidth || mouseX >= absX + g.width - ScrollBarWidth then Hit(false, row, -1)
      else
        var col := ColumnAt(g.colWidths, g.scrollCol, 0, mouseX - (absX + g.headerWidth));
        DivBand(relY, g.rowHeight, relY / g.rowHeight);
        Hit(0 <= col < g.cols, row, col)
  }

  /** `checkHover`: the hovered row and column are whatever the hit test wrote. */
  function CheckHover(g: Grid, absX: int, absY: int, mouseX: int, mouseY: int): (r: Grid)
    requires Valid(g)
    ensures Valid(r) && r == g.(hoverRow := r.hoverRow, hoverCol := r.hoverCol)
    ensures CellAt(g, absX, absY, mouseX, mouseY).ok ==>
      InRange(g, r.hoverRow, r.hoverCol) && CellAt(g, absX, absY, mouseX, mouseY) == Hit(true, r.hoverRow, r.hoverCol)
  {
    var h := CellAt(g, absX, absY, mouseX, mouseY);
    g.(hoverRow := h.row, hoverCol := h.col)
  }

  /**
   * Whose a button event is: the grid's own (`OffBar`), or a shown scroll
   * bar's, vertical or horizontal, with what the bar makes of it.
   */
  datatype BarEvent = OffBar | OnBar(vertical: bool, response: BarResponse)

  /**
   * `handleMouseButton`. A press on a shown scroll bar, or a release while
   * one is dragged, belongs to the scroll bar (`bar`). A track press runs
   * the bar's change callback, which commits any edit and takes the new
   * row or column offset. A press on a cell commits any edit and selects
   * the cell; a release on the selected cell starts editing it.
   */
  function MouseButton(g: Grid, absX: int, absY: int, mouseX: int, mouseY: int, pressed: bool, bar: BarEvent): (r: Grid)
    requires Valid(g)
    ensures Valid(r) && r.rows == g.rows && r.cols == g.cols
    ensures bar.OnBar? && (!pressed || bar.response.BarOnly?) ==> r == g
    ensures bar.OnBar? && pressed && bar.response.TrackJump? ==>
      r.selRow == g.selRow && r.selCol == g.selCol && r.cells == Commit(g).cells && r.changes == Commit(g).changes &&
      (g.selRow >= 0 && g.selCol >= 0 ==> !r.editing)
    ensures bar.OnBar? && pressed && bar.response.TrackJump? ==>
      if bar.vertical then r.scrollRow == bar.response.offset && r.scrollCol == g.scrollCol
      else r.scrollCol == bar.response.offset && r.scrollRow == g.scrollRow
    ensures bar.OnBar? && pressed && bar.response.TrackJump? && g.editing && InRange(g, g.selRow, g.selCol) ==>
      r.cells[g.selRow][g.selCol] == g.editor.line.text &&
      r.changes == g.changes + (if g.hasCallback then [CellChange(g.selRow, g.selCol, g.editor.line.text)] else [])
    ensures bar.OnBar? && !g.editing ==> r.cells == g.cells && r.changes == g.changes
    ensures var h := CellAt(g, absX, absY, mouseX, mouseY);
      bar.OffBar? && pressed && h.ok ==> r == Commit(g).(selRow := h.row, selCol := h.col)
    ensures var h := CellAt(g, absX, absY, mouseX, mouseY);
      bar.OffBar? && !pressed ==>
        r == (if g.selRow >= 0 && g.selCol >= 0 && h.ok && h.row == g.selRow && h.col == g.selCol
              then StartEdit(g, g.selRow, g.selCol) else g)
    ensures bar.OffBar? && pressed && !CellAt(g, absX, absY, mouseX, mouseY).ok ==> r == g
  {
    match bar
    case OnBar(vertical, response) =>
      if !pressed || response.BarOnly? then g
      else
        var c := Commit(g);
        if vertical then c.(scrollRow := response.offset) else c.(scrollCol := response.offset)
    case OffBar =>
      var h := CellAt(g, absX, absY, mouseX, mouseY);
      if pressed then
        if h.ok then Commit(g).(selRow := h.row, selCol := h.col) else g
      else if g.selRow >= 0 && g.selCol >= 0 && h.ok && h.row == g.selRow && h.col == g.selCol then
        StartEdit(g, g.selRow, g.selCol)
      else g
  }

  /*
   * Lemmas.
   */

  /** The sum of a slice grows by the next element. */
  lemma SumSnoc(ws: seq<int>, from: nat, c: nat)
    requires from <= c < |ws|
    ensures Sum(ws[from..c + 1]) == Sum(ws[from..c]) + ws[c]
  {
    assert ws[from..c + 1][..c - from] == ws[from..c];
  }

  /** A slice of positive widths has a positive sum, when it is not empty. */
  lemma {:induction false} SumPositive(ws: seq<int>, from: nat, j: nat)
    requires Positive(ws) && from <= j <= |ws|
    ensures Sum(ws[from..j]) >= 0 && (from < j ==> Sum(ws[from..j]) > 0)
    decreases j - from
  {
    if from < j {
      SumPositive(ws, from, j - 1);
      SumSnoc(ws, from, j - 1);
    }
  }

  /** Sums of slices from the same start grow with the end, for positive widths. */
  lemma {:induction false} SumMonotone(ws: seq<int>, from: nat, i: nat, j: nat)
    requires Positive(ws) && from <= i <= j <= |ws|
    ensures Sum(ws[from..i]) <= Sum(ws[from..j]) && (i < j ==> Sum(ws[from..i]) < Sum(ws[from..j]))
    decreases j - i
  {
    if i < j {
      SumMonotone(ws, from, i, j - 1);
      SumSnoc(ws, from, j - 1);
    }
  }

  /**
   * The columns counted from `c` with `used` pixels spent: they fit, the
   * next one would not, and so, the widths being positive, no longer run
   * from `from` fits.
   */
  lemma {:induction false} FitFrom(ws: seq<int>, from: nat, c: nat, used: int, avail: int)
    requires Positive(ws) && from <= c <= |ws| && used == Sum(ws[from..c])
    ensures var k := Fit(ws, c, used, avail);
      c + k <= |ws| && (k > 0 ==> Sum(ws[from..c + k]) <= avail) &&
      (c + k < |ws| ==> Sum(ws[from..c + k + 1]) > avail)
    decreases |ws| - c
  {
    if c < |ws| {
      SumSnoc(ws, from, c);
      if used + ws[c] <= avail {
        FitFrom(ws, from, c + 1, used + ws[c], avail);
      }
    }
  }

  /** The visible columns are the longest run from the scroll offset whose widths fit. */
  lemma FitIsLargest(ws: seq<int>, from: nat, avail: int)
    requires Positive(ws) && from <= |ws|
    ensures var k := Fit(ws, from, 0, avail);
      from + k <= |ws| && (k > 0 ==> Sum(ws[from..from + k]) <= avail) &&
      forall j :: from + k < j <= |ws| ==> Sum(ws[from..j]) > avail
  {
    var k := Fit(ws, from, 0, avail);
    assert ws[from..from] == [];
    FitFrom(ws, from, from, 0, avail);
    forall j | from + k < j <= |ws|
      ensures Sum(ws[from..j]) > avail
    {
      SumMonotone(ws, from, from + k + 1, j);
    }
  }

  /**
   * The column the hit test finds is the one whose span, counted from the
   * scroll offset, holds the point; past the last span it finds none.
   */
  lemma {:induction false} ColumnAtSpan(ws: seq<int>, from: nat, c: nat, at: int, relX: int)
    requires Positive(ws) && from <= c <= |ws| && at == Sum(ws[from..c]) && at <= relX
    ensures var r := ColumnAt(ws, c, at, relX);
      (r >= 0 ==> Sum(ws[from..r]) <= relX < Sum(ws[from..r + 1])) &&
      (r == -1 ==> relX >= Sum(ws[from..]))
    decreases |ws| - c
  {
    if c == |ws| {
      assert ws[from..] == ws[from..c];
    } else {
      SumSnoc(ws, from, c);
      if !(relX < at + ws[c]) {
        ColumnAtSpan(ws, from, c + 1, at + ws[c], relX);
      }
    }
  }

  /** Reading back a written cell gives the written value; a write outside the store changes nothing. */
  lemma SetThenGet(g: Grid, row: int, col: int, value: string, i: int, j: int)
    requires Shape(g)
    ensures GetCell(SetCell(g, row, col, value), i, j) ==
      if InRange(g, row, col) && (i, j) == (row, col) then value else GetCell(g, i, j)
  {
  }

  /** Growing the rows and shrinking them back restores the store. */
  lemma GrowThenShrinkRows(g: Grid, n: int)
    requires Valid(g) && n >= g.rows && g.rows >= 1
    ensures SetRowCount(SetRowCount(g, n), g.rows).cells == g.cells
  {
    var r := SetRowCount(SetRowCount(g, n), g.rows);
    assert forall i :: 0 <= i < g.rows ==> r.cells[i] == g.cells[i];
  }

  /** Growing the columns and shrinking them back restores the store and the widths. */
  lemma GrowThenShrinkCols(g: Grid, n: int)
    requires Valid(g) && n >= g.cols && g.cols >= 1
    ensures SetColCount(SetColCount(g, n), g.cols).cells == g.cells
    ensures SetColCount(SetColCount(g, n), g.cols).colWidths == g.colWidths
  {
    var r := SetColCount(SetColCount(g, n), g.cols);
    assert forall i :: 0 <= i < g.rows ==> r.cells[i] == g.cells[i];
  }

  /** A selection inside the store stays inside it, or at -1, whatever key is pressed. */
  lemma SelectionStaysInStore(g: Grid, key: Key, pressed: bool)
    requires Valid(g) && -1 <= g.selRow < g.rows && -1 <= g.selCol < g.cols
    ensures var r := HandleKey(g, key, pressed);
      -1 <= r.selRow < r.rows && -1 <= r.selCol < r.cols
  {
  }

  /**
   * Scrolling follows the selection: after Up or Left the selected row or
   * column is not above or left of the scroll offset, and after Down it is
   * within the visible rows.
   */
  lemma ScrollFollows(g: Grid, key: Key)
    requires Valid(g) && !g.editing && g.visibleRows >= 1 && g.scrollRow <= g.selRow
    ensures var r := HandleKey(g, key, true);
      (key.Up? || key.Down?) ==> r.scrollRow <= r.selRow
    ensures var r := HandleKey(g, key, true);
      key.Down? && g.selRow < g.scrollRow + g.visibleRows ==> r.selRow < r.scrollRow + r.visibleRows
    ensures var r := HandleKey(g, key, true);
      key.Left? && g.scrollCol <= g.selCol ==> r.scrollCol <= r.selCol
  {
  }

  /** Starting an edit and committing it with no typing writes the cell's own text back. */
  lemma EditWithoutTyping(g: Grid, row: int, col: int)
    requires Valid(g) && InRange(g, row, col)
    ensures Commit(StartEdit(g, row, col)).cells == g.cells
    ensures Commit(StartEdit(g, row, col)).changes ==
      g.changes + (if g.hasCallback then [CellChange(row, col, g.cells[row][col])] else [])
  {
    var e := StartEdit(g, row, col);
    assert e.cells[row][col := g.cells[row][col]] == g.cells[row];
  }

  /** Typing a character on a selected cell and pressing Enter stores that character and reports it. */
  lemma TypeAndEnter(g: Grid, code: int)
    requires Valid(g) && !g.editing && InRange(g, g.selRow, g.selCol) && 32 <= code <= 126
    ensures var r := HandleKey(HandleChar(g, code), Enter, true);
      !r.editing && GetCell(r, g.selRow, g.selCol) == [code as char] &&
      r.changes == g.changes + (if g.hasCallback then [CellChange(g.selRow, g.selCol, [code as char])] else [])
  {
  }

  /**
   * As written, a shrink strands the selection: select cell (2, 2) of a
   * 3-by-3 grid, set the row count to 1, and type 'x'. `startCellEdit`
   * refuses the cell, but the character is still written to row 2.
   */
  lemma ShrinkThenType()
    ensures var g := SetSelectedCell(New(400, 200, 3, 3, false), 2, 2);
      var s := SetRowCount(g, 1);
      s.selRow == 2 && HandleCharAsWritten(s, 'x' as int).None?
  {
  }

  /** Corrected, the same keystroke is ignored, and no keystroke can break the store's shape. */
  lemma ShrinkThenTypeCorrected(g: Grid, code: int, key: Key, pressed: bool)
    requires Valid(g)
    ensures Shape(HandleChar(g, code)) && Shape(HandleKey(g, key, pressed))
    ensures !g.editing && !InRange(g, g.selRow, g.selCol) ==> HandleChar(g, code) == g
  {
  }

  /** The corrected operations agree with the code as written wherever its writes stay in range. */
  lemma CorrectionAgrees(g: Grid, code: int)
    requires Valid(g)
    ensures CommitAsWritten(g).Some? ==> CommitAsWritten(g).value == Commit(g)
    ensures HandleCharAsWritten(g, code).Some? ==> HandleCharAsWritten(g, code).value == HandleChar(g, code)
  {
  }

  /**
   * With the default widths, the constructor's resize is a fixed point:
   * after it, the whole visible rows and columns are exactly those that
   * fill the widget between its headers and scroll bars.
   */
  lemma NewFitsContent(width: int, height: int, rows: nat, cols: nat)
    requires height >= DefaultHeaderHeight + 2 && width >= DefaultHeaderWidth + 2
    ensures var g := New(width, height, rows, cols, false);
      g.visibleRows == (height - DefaultHeaderHeight - 2) / DefaultRowHeight &&
      g.height == 1 + DefaultHeaderHeight + g.visibleRows * DefaultRowHeight + ScrollBarWidth + 1 &&
      g.visibleCols == Min(cols, (width - DefaultHeaderWidth - 2) / DefaultColumnWidth) &&
      g.width == 1 + DefaultHeaderWidth + g.visibleCols * DefaultColumnWidth + ScrollBarWidth + 1
  {
    var ws := Repeat(DefaultColumnWidth, cols);
    var vc := Min(cols, (width - DefaultHeaderWidth - 2) / DefaultColumnWidth);
    FitUniform(cols, 0, width - DefaultHeaderWidth - 2);
    SumUniform(cols, vc);
    var w2 := 1 + DefaultHeaderWidth + vc * DefaultColumnWidth + ScrollBarWidth + 1;
    FitUniform(cols, 0, w2 - DefaultHeaderWidth - 2);
    assert (w2 - DefaultHeaderWidth - 2) / DefaultColumnWidth == vc;
  }

  /** With equal widths, the columns that fit are as many as whole widths fit, up to the last column. */
  lemma {:induction false} FitUniform(n: nat, c: nat, avail: int)
    requires c <= n && avail >= 0
    ensures Fit(Repeat(DefaultColumnWidth, n), c, 0, avail) == Min(n - c, avail / DefaultColumnWidth)
    decreases n - c
  {
    var ws := Repeat(DefaultColumnWidth, n);
    if c < n && DefaultColumnWidth <= avail {
      FitShift(ws, c + 1, DefaultColumnWidth, avail);
      FitUniform(n, c + 1, avail - DefaultColumnWidth);
    }
  }

  /** Spending `used` pixels first is the same as having that much less room. */
  lemma {:induction false} FitShift(ws: seq<int>, c: nat, used: int, avail: int)
    ensures Fit(ws, c, used, avail) == Fit(ws, c, 0, avail - used)
    decreases |ws| - c
  {
    if c < |ws| && used + ws[c] <= avail {
      FitShift(ws, c + 1, used + ws[c], avail);
      FitShift(ws, c + 1, ws[c], avail - used);
    }
  }

  /** The first `k` equal widths sum to `k` widths. */
  lemma {:induction false} SumUniform(n: nat, k: nat)
    requires k <= n
    ensures Sum(Repeat(DefaultColumnWidth, n)[..k]) == k * DefaultColumnWidth
    decreases k
  {
    if k > 0 {
      var ws := Repeat(DefaultColumnWidth, n);
      assert ws[..k][..k - 1] == ws[..k - 1];
      SumUniform(n, k - 1);
    }
  }
}
