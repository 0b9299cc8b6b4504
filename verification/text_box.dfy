/**
 * The single-line text box: a `TextLine` buffer plus focus, the drag
 * state of a mouse selection, and the change callback, whose calls are
 * recorded in `changes` (each carries the text at that moment). The
 * character index under the mouse depends on glyph widths and is passed
 * in as `index`, a position in the text as the source's hit test returns.
 */
module TextBox {
  import opened Common
  import opened Keys
  import opened TextLine

  datatype Box = Box(line: Line, focused: bool, selecting: bool, hasCallback: bool, changes: seq<string>)

  /** The constructor: empty, unfocused, nothing selected. */
  function New(hasCallback: bool): (b: Box)
    ensures b.line == Line("", 0, -1, -1) && !b.focused && !b.selecting && b.changes == []
  {
    Box(Line("", 0, -1, -1), false, false, hasCallback, [])
  }

  /** The state the box keeps: a valid buffer, and a drag only from an anchor in the text. */
  predicate Valid(b: Box) {
    TextLine.Valid(b.line) && (b.selecting ==> Anchored(b.line))
  }

  /** The change callback, if installed, receives the current text. */
  function Changed(b: Box): (r: Box)
    ensures r.line == b.line && r.focused == b.focused && r.selecting == b.selecting
    ensures r.changes == b.changes + (if b.hasCallback then [b.line.text] else [])
  {
    if b.hasCallback then b.(changes := b.changes + [b.line.text]) else b
  }

  /** `handleChar`: a printable ASCII code replaces the selection, if any, at the cursor. */
  function HandleChar(b: Box, code: int): (r: Box)
    requires Valid(b)
    ensures Valid(r)
    ensures !b.focused || !(32 <= code <= 126) ==> r == b
    ensures b.focused && 32 <= code <= 126 ==>
      r.line == TypeChar(b.line, code as char) && !r.selecting &&
      r.changes == b.changes + (if b.hasCallback then [r.line.text] else [])
  {
    if b.focused && 32 <= code <= 126 then
      Changed(b.(line := TypeChar(b.line, code as char), selecting := false))
    else b
  }

  /**
   * `handleKey`: ignored unless focused and pressed. Any such key ends a
   * mouse drag; Backspace and Delete report a change only when they
   * change something.
   */
  function HandleKey(b: Box, key: Key, pressed: bool): (r: Box)
    requires Valid(b)
    ensures Valid(r)
    ensures !b.focused || !pressed ==> r == b
    ensures b.focused && pressed ==> !r.selecting
    ensures b.focused && pressed && key.Backspace? ==> r.line == TextLine.Backspace(b.line)
    ensures b.focused && pressed && key.Delete? ==> r.line == DeleteForward(b.line)
    ensures b.focused && pressed && key.Left? ==> r.line == MoveLeft(b.line)
    ensures b.focused && pressed && key.Right? ==> r.line == MoveRight(b.line)
    ensures b.focused && pressed && key.Home? ==> r.line == MoveHome(b.line)
    ensures b.focused && pressed && key.End? ==> r.line == MoveEnd(b.line)
    ensures r.changes == b.changes + (if b.hasCallback && r.line.text != b.line.text then [r.line.text] else [])
  {
    if !b.focused || !pressed then b
    else
      var s := b.(selecting := false);
      match key
      case Backspace =>
        if HasSelection(s.line) || s.line.cursor > 0 then Changed(s.(line := TextLine.Backspace(s.line))) else s
      case Delete =>
        if HasSelection(s.line) || s.line.cursor < |s.line.text| then Changed(s.(line := DeleteForward(s.line))) else s
      case Left => s.(line := MoveLeft(s.line))
      case Right => s.(line := MoveRight(s.line))
      case Home => s.(line := MoveHome(s.line))
      case End => s.(line := MoveEnd(s.line))
      case _ => s
  }

  /**
   * `handleMouseButton`. A press inside the box anchors a selection at
   * `index` and starts a drag; a release ends the drag and forgets an
   * empty selection. A release outside the box does so only while dragging.
   */
  function MouseButton(b: Box, inside: bool, index: int, pressed: bool): (r: Box)
    requires Valid(b) && InText(b.line, index)
    ensures Valid(r)
    ensures r.line.text == b.line.text && r.changes == b.changes && r.focused == b.focused
    ensures pressed ==> r.line == Anchor(b.line, index) && r.selecting
    ensures !pressed ==> !r.selecting
    ensures !pressed && (inside || b.selecting) ==> r.line == Collapse(b.line)
    ensures !pressed && !inside && !b.selecting ==> r == b
  {
    if !inside && !pressed then
      if b.selecting then b.(selecting := false, line := Collapse(b.line)) else b
    else if pressed then b.(line := Anchor(b.line, index), selecting := true)
    else b.(selecting := false, line := Collapse(b.line))
  }

  /** `handleMouseMove`: while dragging with focus, extend the selection to `index`. */
  function MouseMove(b: Box, index: int): (r: Box)
    requires Valid(b) && InText(b.line, index)
    ensures Valid(r)
    ensures b.selecting && b.focused ==> r.line == DragTo(b.line, index) && r.selecting
    ensures !(b.selecting && b.focused) ==> r == b
  {
    if b.selecting && b.focused then b.(line := DragTo(b.line, index)) else b
  }

  /** `setFocus`: either way, any drag ends. */
  function SetFocus(b: Box, focused: bool): (r: Box)
    ensures r == b.(focused := focused, selecting := false)
  {
    b.(focused := focused, selecting := false)
  }

  /** `setText`: cursor at the end, no selection, and the change is reported. */
  function SetText(b: Box, text: string): (r: Box)
    requires Valid(b)
    ensures Valid(r)
    ensures r.line == FromText(text)
    ensures r.changes == b.changes + (if b.hasCallback then [text] else [])
  {
    Changed(b.(line := FromText(text)))
  }

  /** `selectAll`: select the whole text; nothing happens on empty text. */
  function SelectAll(b: Box): (r: Box)
    requires Valid(b)
    ensures Valid(r)
    ensures b.line.text == "" ==> r == b
    ensures b.line.text != "" ==> r.line == TextLine.SelectAll(b.line) && SelectedText(r.line) == b.line.text
  {
    if b.line.text == "" then b else b.(line := TextLine.SelectAll(b.line))
  }

  /** `getSelectedText`. */
  function GetSelectedText(b: Box): (r: string)
    requires Valid(b)
    ensures r == SelectedText(b.line)
  {
    SelectedText(b.line)
  }

  /*
   * Lemmas.
   */

  /** With a callback installed, the last report is the current text (and before any report, the text is empty). */
  predicate ReportsCurrent(b: Box) {
    b.hasCallback ==> if |b.changes| == 0 then b.line.text == "" else b.changes[|b.changes| - 1] == b.line.text
  }

  /** Every operation keeps the reports in step with the text: no change goes unreported. */
  lemma ReportsKept(b: Box, code: int, key: Key, pressed: bool, text: string)
    requires Valid(b) && ReportsCurrent(b)
    ensures ReportsCurrent(HandleChar(b, code)) && ReportsCurrent(HandleKey(b, key, pressed))
    ensures ReportsCurrent(SetText(b, text))
  {
  }

  /** The selection and focus operations neither change the text nor report. */
  lemma ReportsKeptBySelection(b: Box, inside: bool, index: int, pressed: bool, f: bool)
    requires Valid(b) && ReportsCurrent(b)
    ensures ReportsCurrent(SelectAll(b)) && ReportsCurrent(SetFocus(b, f))
    ensures InText(b.line, index) ==>
      ReportsCurrent(MouseButton(b, inside, index, pressed)) && ReportsCurrent(MouseMove(b, index))
  {
  }

  /** A new box keeps the invariant and has reported nothing. */
  lemma NewIsValid(hasCallback: bool)
    ensures Valid(New(hasCallback)) && ReportsCurrent(New(hasCallback))
  {
  }

  /** Press, drag and release select the characters between the two points, whichever way the drag went. */
  lemma DragSelection(b: Box, i: int, j: int)
    requires Valid(b) && b.focused && InText(b.line, i) && InText(b.line, j) && i != j
    ensures var p := MouseButton(b, true, i, true);
      var m := MouseMove(p, j);
      var q := MouseButton(m, true, j, false);
      !q.selecting && GetSelectedText(q) == b.line.text[Min(i, j)..Max(i, j)] && q.line.cursor == j
  {
    DragSelects(b.line, i, j);
  }

  /** A click without a drag leaves no selection, only the cursor at the click. */
  lemma ClickLeavesNoSelection(b: Box, i: int)
    requires Valid(b) && InText(b.line, i)
    ensures var q := MouseButton(MouseButton(b, true, i, true), true, i, false);
      q.line == Line(b.line.text, i, -1, -1) && !HasSelection(q.line)
  {
  }

  /** A typed character followed by Backspace restores the text and the cursor. */
  lemma TypeThenErase(b: Box, code: int)
    requires Valid(b) && b.focused && 32 <= code <= 126 && !HasSelection(b.line)
    ensures var r := HandleKey(HandleChar(b, code), Backspace, true);
      r.line.text == b.line.text && r.line.cursor == b.line.cursor
  {
    TypeThenBackspace(b.line, code as char);
  }
}
