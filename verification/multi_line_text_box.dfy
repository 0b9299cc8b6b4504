/**
 * The multi-line text box: the editing buffer, the stored text that
 * `getText` returns, the first visible line and how many lines fit, focus,
 * the drag state of a mouse selection, and the change callback, whose
 * calls are recorded in `changes`. `x` and `y` are the box's absolute
 * position (`getAbsoluteX`/`getAbsoluteY`).
 *
 * A font renderer is assumed present, as in any box that is drawn: its
 * per-character widths are the `Glyph` parameter of the mouse handlers
 * and its text height is the parameter of `Measure`. Word wrapping is
 * disabled (no line is wider than the box), so `wrapText` splits at '\n'
 * only and `checkAndWrapCurrentLine` changes nothing.
 */
module MultiLineTextBox {
  import opened Common
  import opened Keys
  import opened TextLines
  import opened MultiLineBuffer
  import WidgetBase

  /** The line height before the first draw measures the font. */
  const DefaultLineHeight := 20
  /** The text starts this many pixels right of and below the box's corner. */
  const TextInset := 5

  /** The advance width of each character, from the font renderer. */
  type Glyph = char -> nat

  datatype Editor = Editor(
    x: int, y: int, width: int, height: int,
    buf: Buf, text: string,
    scroll: int, visible: int, lineHeight: int,
    focused: bool, selecting: bool, hasCallback: bool, changes: seq<string>)

  /** What every handler needs: a well-formed buffer and a positive line height. */
  predicate Sound(e: Editor) {
    Wf(e.buf) && e.lineHeight > 0
  }

  /** The stored text is the lines joined, as `rebuildTextFromLines` leaves it. */
  predicate Consistent(e: Editor) {
    e.text == Flat(e.buf)
  }

  /** While a drag is under way, its anchor is unset or a place of the text. */
  predicate Dragging(e: Editor) {
    e.selecting ==> e.buf.anchor.line == -1 || At(e.buf, e.buf.anchor)
  }

  predicate Valid(e: Editor) {
    Sound(e) && Consistent(e) && Dragging(e)
  }

  /** The constructor: one empty line, no selection, unfocused. */
  function New(x: int, y: int, width: int, height: int, hasCallback: bool): (e: Editor)
    ensures Valid(e) && e.text == "" && e.buf.lines == [""] && e.buf.cur == Pos(0, 0)
    ensures !HasSelection(e.buf) && !e.focused && !e.selecting && e.scroll == 0 && e.changes == []
  {
    Editor(x, y, width, height, Empty(), "", 0, 0, DefaultLineHeight, false, false, hasCallback, [])
  }

  /** The change callback, if installed, receives the stored text. */
  function Changed(e: Editor): (r: Editor)
    ensures r == e.(changes := r.changes)
    ensures r.changes == e.changes + (if e.hasCallback then [e.text] else [])
  {
    if e.hasCallback then e.(changes := e.changes + [e.text]) else e
  }

  /** `rebuildTextFromLines`. */
  function Rebuild(e: Editor): (r: Editor)
    ensures Consistent(r) && r == e.(text := r.text)
  {
    e.(text := Flat(e.buf))
  }

  /**
   * `updateScrollOffset`: scroll the least amount that brings the cursor
   * line into the `visible` lines from `scroll`.
   */
  function UpdateScroll(e: Editor): (r: Editor)
    ensures r == e.(scroll := r.scroll)
    ensures e.visible >= 1 ==> r.scroll <= e.buf.cur.line < r.scroll + e.visible
    ensures e.scroll <= e.buf.cur.line < e.scroll + e.visible ==> r.scroll == e.scroll
    ensures e.buf.cur.line < e.scroll ==> r.scroll == e.buf.cur.line
    ensures e.scroll <= e.buf.cur.line && e.scroll + e.visible <= e.buf.cur.line ==> r.scroll + e.visible - 1 == e.buf.cur.line
  {
    var l := e.buf.cur.line;
    if l < e.scroll then e.(scroll := l)
    else if l >= e.scroll + e.visible then e.(scroll := l - e.visible + 1)
    else e
  }

  /**
   * The measuring part of `draw`: the line height is the font's text
   * height plus 4, and the visible line count is how many such lines fit
   * in the height less 4.
   */
  function Measure(e: Editor, fontHeight: nat): (r: Editor)
    ensures r == e.(lineHeight := r.lineHeight, visible := r.visible)
    ensures r.lineHeight == fontHeight + 4
    ensures e.height >= 4 ==> r.visible * r.lineHeight <= e.height - 4 < (r.visible + 1) * r.lineHeight
    ensures Sound(e) ==> Sound(r)
  {
    var lh := fontHeight + 4;
    var v := CDiv(e.height - 4, lh);
    WholeLines(e.height - 4, lh);
    e.(lineHeight := lh, visible := v)
  }

  lemma WholeLines(a: int, w: int)
    requires w > 0
    ensures a >= 0 ==> CDiv(a, w) * w <= a < (CDiv(a, w) + 1) * w
  {
    if a >= 0 {
      var q := CDiv(a, w);
      DivBand(a, w, q);
      assert w * q == q * w && w * (q + 1) == (q + 1) * w;
    }
  }

  /**
   * `handleChar`: with focus, a printable ASCII code replaces the selection,
   * if any, at the cursor; the text is rebuilt and reported. In the joined
   * text the character goes in at the caret.
   */
  function HandleChar(e: Editor, code: int): (r: Editor)
    requires Sound(e)
    ensures Sound(r) && (Valid(e) ==> Valid(r))
    ensures !e.focused || !(32 <= code <= 126) ==> r == e
    ensures e.focused && 32 <= code <= 126 ==>
      var d := DeleteSelection(e.buf);
      var f, k := Flat(d), Caret(d);
      Consistent(r) && r.text == f[..k] + [code as char] + f[k..] && Caret(r.buf) == k + 1 &&
      r.selecting == e.selecting && r.changes == e.changes + (if e.hasCallback then [r.text] else [])
  {
    if !e.focused || !(32 <= code <= 126) then e
    else Changed(Rebuild(e.(buf := InsertChar(DeleteSelection(e.buf), code as char))))
  }

  /**
   * Backspace: erase back, rebuild, scroll to the cursor and report, unless
   * the cursor is at the very start with nothing selected, when nothing
   * happens at all.
   */
  function BackspaceKey(e: Editor): (r: Editor)
    requires Sound(e)
    ensures Sound(r) && r.buf == EraseBack(e.buf)
    ensures r == e.(buf := r.buf, text := r.text, scroll := r.scroll, changes := r.changes)
    ensures Flat(r.buf) == Flat(e.buf) ==> r == e
    ensures Flat(r.buf) != Flat(e.buf) ==>
      r.text == Flat(r.buf) && r.changes == e.changes + (if e.hasCallback then [r.text] else [])
  {
    var b := e.buf;
    OffsetRange(b.lines, b.cur.line, b.cur.col);
    if HasSelection(b) || b.cur.col > 0 || b.cur.line > 0 then
      Changed(UpdateScroll(Rebuild(e.(buf := EraseBack(b)))))
    else e
  }

  /** Delete: erase forward, rebuild and report (without scrolling), unless at the very end with nothing selected. */
  function DeleteKey(e: Editor): (r: Editor)
    requires Sound(e)
    ensures Sound(r) && r.buf == EraseForward(e.buf)
    ensures r == e.(buf := r.buf, text := r.text, changes := r.changes)
    ensures Flat(r.buf) == Flat(e.buf) ==> r == e
    ensures Flat(r.buf) != Flat(e.buf) ==>
      r.text == Flat(r.buf) && r.changes == e.changes + (if e.hasCallback then [r.text] else [])
  {
    var b := e.buf;
    OffsetRange(b.lines, b.cur.line, b.cur.col);
    if HasSelection(b) || b.cur.col < |b.lines[b.cur.line]| || b.cur.line < |b.lines| - 1 then
      Changed(Rebuild(e.(buf := EraseForward(b))))
    else e
  }

  /** Enter: break the line, rebuild, scroll to the cursor and report. */
  function EnterKey(e: Editor): (r: Editor)
    requires Sound(e)
    ensures Sound(r) && r.buf == NewLine(e.buf)
    ensures r == e.(buf := r.buf, text := r.text, scroll := r.scroll, changes := r.changes)
    ensures r.text == Flat(r.buf) && r.changes == e.changes + (if e.hasCallback then [r.text] else [])
  {
    Changed(UpdateScroll(Rebuild(e.(buf := NewLine(e.buf)))))
  }

  /**
   * Backspace, Delete and Enter. Backspace and Delete report only a change
   * of the text; Enter always reports, even when it puts back the very
   * break it replaced.
   */
  function EditKey(e: Editor, key: Key): (r: Editor)
    requires Sound(e)
    ensures Sound(r) && r.selecting == e.selecting && r.focused == e.focused && r.hasCallback == e.hasCallback
    ensures Consistent(e) ==> Consistent(r)
    ensures !(key.Backspace? || key.Delete? || key.Enter?) ==> r == e
    ensures r.changes == e.changes + (if e.hasCallback && (key.Enter? || Flat(r.buf) != Flat(e.buf)) then [r.text] else [])
  {
    match key
    case Backspace => BackspaceKey(e)
    case Delete => DeleteKey(e)
    case Enter => EnterKey(e)
    case _ => e
  }

  /** The buffer after an arrow, Home or End key; any other key leaves it. */
  function Moved(b: Buf, key: Key): (r: Buf)
    requires Wf(b)
    ensures Wf(r) && r.lines == b.lines && r.wrapped == b.wrapped
    ensures key.Left? || key.Right? || key.Up? || key.Down? || key.Home? || key.End? ==> !HasSelection(r)
  {
    match key
    case Left => MoveLeft(b)
    case Right => MoveRight(b)
    case Up => MoveUp(b)
    case Down => MoveDown(b)
    case Home => MoveHome(b)
    case End => MoveEnd(b)
    case _ => b
  }

  /** A cursor key: the buffer moves, and the view scrolls exactly when the cursor changed line. */
  function MoveKey(e: Editor, key: Key): (r: Editor)
    requires Sound(e)
    ensures Sound(r) && r.buf == Moved(e.buf, key)
    ensures r.text == e.text && r.changes == e.changes && r.selecting == e.selecting && r.focused == e.focused
    ensures r.hasCallback == e.hasCallback
    ensures r.buf.cur.line == e.buf.cur.line ==> r.scroll == e.scroll
    ensures r.buf.cur.line != e.buf.cur.line ==> r == UpdateScroll(e.(buf := r.buf))
  {
    var m := Moved(e.buf, key);
    if m.cur.line != e.buf.cur.line then UpdateScroll(e.(buf := m)) else e.(buf := m)
  }

  /**
   * `handleKey` as written: ignored unless focused and pressed; a mouse
   * drag in progress goes on across the edit.
   */
  function HandleKeyAsWritten(e: Editor, key: Key, pressed: bool): (r: Editor)
    requires Sound(e)
    ensures Sound(r) && r.selecting == e.selecting && r.hasCallback == e.hasCallback && (Consistent(e) ==> Consistent(r))
    ensures !e.focused || !pressed ==> r == e
    ensures e.focused && pressed && key.Backspace? ==> r == BackspaceKey(e)
    ensures e.focused && pressed && key.Delete? ==> r == DeleteKey(e)
    ensures e.focused && pressed && key.Enter? ==> r == EnterKey(e)
    ensures e.focused && pressed && !(key.Backspace? || key.Delete? || key.Enter?) ==> r == MoveKey(e, key)
  {
    if !e.focused || !pressed then e
    else if key.Backspace? || key.Delete? || key.Enter? then EditKey(e, key)
    else MoveKey(e, key)
  }

  /**
   * `handleKey`, corrected: a handled key first ends any mouse drag, as the
   * single-line text box does, so that a later mouse move cannot extend a
   * selection from an anchor the edit has moved or removed.
   */
  function HandleKey(e: Editor, key: Key, pressed: bool): (r: Editor)
    requires Sound(e)
    ensures Sound(r) && (Valid(e) ==> Valid(r)) && r.hasCallback == e.hasCallback
    ensures !e.focused || !pressed ==> r == e
    ensures e.focused && pressed ==> !r.selecting
    ensures e.focused && pressed && key.Backspace? ==> r.buf == EraseBack(e.buf)
    ensures e.focused && pressed && key.Delete? ==> r.buf == EraseForward(e.buf)
    ensures e.focused && pressed && key.Enter? ==> r.buf == NewLine(e.buf)
    ensures e.focused && pressed && !(key.Backspace? || key.Delete? || key.Enter?) ==> r.buf == Moved(e.buf, key)
    ensures r.changes == e.changes +
      (if e.hasCallback && e.focused && pressed && (key.Enter? || Flat(r.buf) != Flat(e.buf)) then [r.text] else [])
  {
    if !e.focused || !pressed then e
    else HandleKeyAsWritten(e.(selecting := false), key, pressed)
  }

  /** The line under the mouse's y: the first visible line plus whole line heights below the text's top. */
  function ClickedLine(e: Editor, mouseY: int): int
    requires e.lineHeight > 0
  {
    e.scroll + CDiv(mouseY - e.y - TextInset, e.lineHeight)
  }

  /** Below the text's top, the clicked line is the one whose band holds the mouse. */
  lemma ClickedLineIsBand(e: Editor, mouseY: int, k: int)
    requires e.lineHeight > 0 && mouseY >= e.y + TextInset
    ensures ClickedLine(e, mouseY) == e.scroll + k <==>
      e.y + TextInset + k * e.lineHeight <= mouseY < e.y + TextInset + (k + 1) * e.lineHeight
  {
    DivBand(mouseY - e.y - TextInset, e.lineHeight, k);
    assert e.lineHeight * k == k * e.lineHeight && e.lineHeight * (k + 1) == (k + 1) * e.lineHeight;
  }

  /** The total width of a string. */
  function Width(s: string, glyph: Glyph): nat
  {
    if |s| == 0 then 0 else Width(s[..|s| - 1], glyph) + glyph(s[|s| - 1])
  }

  /**
   * `getCharIndexFromPosition`: the first column whose character's
   * midpoint lies right of `px`, or the line's length when there is none.
   */
  function CharIndex(line: string, glyph: Glyph, px: int): (r: nat)
    ensures r <= |line|
    ensures forall i :: 0 <= i < r ==> Width(line[..i], glyph) + glyph(line[i]) / 2 <= px
    ensures r < |line| ==> px < Width(line[..r], glyph) + glyph(line[r]) / 2
  {
    CharIndexFrom(line, glyph, px, 0, 0)
  }

  function CharIndexFrom(line: string, glyph: Glyph, px: int, i: nat, x: int): (r: nat)
    requires i <= |line| && x == Width(line[..i], glyph)
    ensures i <= r <= |line|
    ensures forall k :: i <= k < r ==> Width(line[..k], glyph) + glyph(line[k]) / 2 <= px
    ensures r < |line| ==> px < Width(line[..r], glyph) + glyph(line[r]) / 2
    decreases |line| - i
  {
    if i == |line| then i
    else if px < x + glyph(line[i]) / 2 then i
    else
      assert line[..i + 1][..i] == line[..i];
      CharIndexFrom(line, glyph, px, i + 1, x + glyph(line[i]))
  }

  /** The place under the mouse on line `l`. */
  function PlaceAt(e: Editor, l: int, mouseX: int, glyph: Glyph): (p: Pos)
    requires Sound(e) && 0 <= l < |e.buf.lines|
    ensures p.line == l && At(e.buf, p)
  {
    Pos(l, CharIndex(e.buf.lines[l], glyph, mouseX - e.x - TextInset))
  }

  /**
   * `handleMouseButton`. A press inside the box on a line of the text puts
   * the cursor and both selection ends at the place under the mouse and
   * starts a drag; a press below the last line does nothing. Anything else
   * ends the drag.
   */
  function MouseButton(e: Editor, mouseX: int, mouseY: int, pressed: bool, glyph: Glyph): (r: Editor)
    requires Sound(e)
    ensures Sound(r) && (Valid(e) ==> Valid(r))
    ensures r.buf.lines == e.buf.lines && r.text == e.text && r.changes == e.changes && r.scroll == e.scroll
    ensures var inside := WidgetBase.InRect(mouseX, mouseY, e.x, e.y, e.width, e.height);
      var l := ClickedLine(e, mouseY);
      (!(pressed && inside) ==> r == e.(selecting := false)) &&
      (pressed && inside && !(0 <= l < |e.buf.lines|) ==> r == e) &&
      (pressed && inside && 0 <= l < |e.buf.lines| ==>
        r.selecting && r.buf == Press(e.buf, PlaceAt(e, l, mouseX, glyph)))
  {
    var inside := WidgetBase.InRect(mouseX, mouseY, e.x, e.y, e.width, e.height);
    if pressed && inside then
      var l := ClickedLine(e, mouseY);
      if 0 <= l < |e.buf.lines| then
        e.(buf := Press(e.buf, PlaceAt(e, l, mouseX, glyph)), selecting := true)
      else e
    else e.(selecting := false)
  }

  /**
   * `handleMouseMove`: while dragging with focus, the cursor and the
   * selection's moving end follow the mouse over the lines of the text.
   * The anchor is not checked: a drag whose anchor is no longer a place of
   * the text yields a selection that is not one either.
   */
  function MouseMove(e: Editor, mouseX: int, mouseY: int, glyph: Glyph): (r: Editor)
    requires Sound(e)
    ensures Valid(e) ==> Valid(r)
    ensures r.buf.lines == e.buf.lines && r.text == e.text && r.changes == e.changes && r.selecting == e.selecting
    ensures var l := ClickedLine(e, mouseY);
      (e.selecting && e.focused && 0 <= l < |e.buf.lines| ==>
        var p := PlaceAt(e, l, mouseX, glyph);
        r.buf == e.buf.(cur := p, head := p)) &&
      (!(e.selecting && e.focused && 0 <= l < |e.buf.lines|) ==> r == e)
  {
    var l := ClickedLine(e, mouseY);
    if e.selecting && e.focused && 0 <= l < |e.buf.lines| then
      var p := PlaceAt(e, l, mouseX, glyph);
      e.(buf := e.buf.(cur := p, head := p))
    else e
  }

  /** `setFocus`: losing focus ends any drag. */
  function SetFocus(e: Editor, focused: bool): (r: Editor)
    requires Sound(e)
    ensures Sound(r) && (Valid(e) ==> Valid(r))
    ensures r.focused == focused && r.buf == e.buf && r.text == e.text
    ensures !focused ==> !r.selecting
    ensures focused ==> r.selecting == e.selecting
  {
    if focused then e.(focused := true) else e.(focused := false, selecting := false)
  }

  /** `selectAll`. */
  function SelectAll(e: Editor): (r: Editor)
    requires Sound(e)
    ensures Sound(r) && (Valid(e) ==> Valid(r))
    ensures r.buf == MultiLineBuffer.SelectAll(e.buf) && r.text == e.text && r.changes == e.changes
  {
    e.(buf := MultiLineBuffer.SelectAll(e.buf))
  }

  /*
   * Setting the text.
   */

  /**
   * The lines `wrapText` produces with wrapping disabled: the text split
   * at '\n', less a final empty line when there is more than one line
   * (so a text ending in '\n' loses its last, empty, line).
   */
  function WrapLines(t: string): (r: seq<string>)
    ensures |r| >= 1 && NoBreaks(r)
  {
    var s := Split(t);
    SplitNoBreaks(t);
    if |s| > 1 && s[|s| - 1] == "" then s[..|s| - 1] else s
  }

  /**
   * The loop of `wrapText`, with no line too wide: `currentLine` and
   * `currentWord` accumulate the line in progress, a break ends it, and
   * at the end the line in progress is kept only when it is not empty.
   */
  method WrapText(t: string) returns (lines: seq<string>)
    ensures lines == WrapLines(t)
  {
    if |t| == 0 {
      return [""];
    }
    lines := [];
    var currentLine, currentWord := "", "";
    var i := 0;
    assert t[..0] == [] && currentLine + currentWord == "";
    while i < |t|
      invariant 0 <= i <= |t|
      invariant lines + [currentLine + currentWord] == Split(t[..i])
      decreases |t| - i
    {
      var c := t[i];
      ghost var s := Split(t[..i]);
      assert s[..|s| - 1] == lines && s[|s| - 1] == currentLine + currentWord;
      assert t[..i + 1][..i] == t[..i] && t[..i + 1][i] == c;
      if c == '\n' {
        assert Split(t[..i + 1]) == s + [""];
        lines := lines + [currentLine + currentWord];
        currentLine, currentWord := "", "";
        assert currentLine + currentWord == "";
      } else if c == ' ' {
        assert Split(t[..i + 1]) == lines + [currentLine + currentWord + [c]];
        currentLine := currentLine + currentWord + " ";
        currentWord := "";
        assert currentLine + currentWord == currentLine;
      } else {
        assert Split(t[..i + 1]) == lines + [currentLine + currentWord + [c]];
        assert currentLine + (currentWord + [c]) == currentLine + currentWord + [c];
        currentWord := currentWord + [c];
      }
      i := i + 1;
    }
    assert t[..i] == t;
    if |currentWord| > 0 {
      lines := lines + [currentLine + currentWord];
    } else if |currentLine| > 0 {
      assert currentLine + currentWord == currentLine;
      lines := lines + [currentLine];
    } else {
      assert (lines + [""])[..|lines|] == lines;
    }
    if |lines| == 0 {
      lines := [""];
    }
  }

  /** The wrapped lines join back to the text exactly when it does not end with a break. */
  lemma WrapLinesJoin(t: string)
    ensures Join(WrapLines(t)) == t <==> (t == "" || t[|t| - 1] != '\n')
  {
    JoinSplit(t);
    var s := Split(t);
    if t != "" {
      var t' := t[..|t| - 1];
      if t[|t| - 1] == '\n' {
        assert s == Split(t') + [""];
        JoinSplit(t');
        assert WrapLines(t) == Split(t');
        assert |t'| < |t|;
      } else {
        assert s[|s| - 1] != "";
      }
    }
  }

  /**
   * `setText` as written: the stored text is the new text, but the lines
   * come from `wrapText`, which drops a final empty line; cursor and
   * scroll go to the start, the selection is cleared, and the change is
   * reported.
   */
  function SetTextAsWritten(e: Editor, t: string): (r: Editor)
    requires Sound(e)
    ensures Sound(r) && r.text == t && r.buf.lines == WrapLines(t) && r.buf.cur == Pos(0, 0)
    ensures r.scroll == 0 && !HasSelection(r.buf) && Dragging(r)
    ensures r.changes == e.changes + (if e.hasCallback then [t] else [])
    ensures Consistent(r) <==> (t == "" || t[|t| - 1] != '\n')
  {
    var ls := WrapLines(t);
    WrapLinesJoin(t);
    Changed(e.(buf := Buf(ls, Repeat(false, |ls|), Pos(0, 0), Unset, Unset), text := t, scroll := 0))
  }

  /** `setText`, corrected: the lines are the text split at every '\n', so they join back to it. */
  function SetText(e: Editor, t: string): (r: Editor)
    requires Sound(e)
    ensures Valid(r) && r.text == t && Flat(r.buf) == t && r.buf.cur == Pos(0, 0)
    ensures r.scroll == 0 && !HasSelection(r.buf)
    ensures r.changes == e.changes + (if e.hasCallback then [t] else [])
  {
    var ls := Split(t);
    SplitNoBreaks(t);
    JoinSplit(t);
    Changed(e.(buf := Buf(ls, Repeat(false, |ls|), Pos(0, 0), Unset, Unset), text := t, scroll := 0))
  }

  /*
   * Lemmas.
   */

  /** With a callback installed, the last report is the stored text (and before any report, the text is empty). */
  predicate ReportsCurrent(e: Editor) {
    e.hasCallback ==> if |e.changes| == 0 then e.text == "" else e.changes[|e.changes| - 1] == e.text
  }

  /** Typing keeps the reports in step with the text. */
  lemma ReportsKeptByChar(e: Editor, code: int)
    requires Valid(e) && ReportsCurrent(e)
    ensures ReportsCurrent(HandleChar(e, code))
  {
  }

  /** Keys keep the reports in step with the text: no change goes unreported. */
  lemma ReportsKeptByKey(e: Editor, key: Key, pressed: bool)
    requires Valid(e) && ReportsCurrent(e)
    ensures ReportsCurrent(HandleKey(e, key, pressed))
  {
    var r := HandleKey(e, key, pressed);
    if e.hasCallback && e.focused && pressed && (key.Enter? || Flat(r.buf) != Flat(e.buf)) {
      assert r.changes[|r.changes| - 1] == r.text;
    } else if e.hasCallback {
      assert r.changes == e.changes && r.text == e.text;
    }
  }

  /** Setting the text reports it. */
  lemma ReportsKeptBySetText(e: Editor, t: string)
    requires Valid(e) && ReportsCurrent(e)
    ensures ReportsCurrent(SetText(e, t))
  {
  }

  /** The new box keeps the invariant and has reported nothing. */
  lemma NewIsValid(x: int, y: int, width: int, height: int, hasCallback: bool)
    ensures Valid(New(x, y, width, height, hasCallback)) && ReportsCurrent(New(x, y, width, height, hasCallback))
  {
  }

  /** Backspace looks at the buffer only, so the drag flag passes through it. */
  lemma BackspaceIgnoresDrag(e: Editor)
    requires Sound(e)
    ensures BackspaceKey(e.(selecting := false)) == BackspaceKey(e).(selecting := false)
  {
  }

  /** Delete looks at the buffer only, so the drag flag passes through it. */
  lemma DeleteIgnoresDrag(e: Editor)
    requires Sound(e)
    ensures DeleteKey(e.(selecting := false)) == DeleteKey(e).(selecting := false)
  {
  }

  /** Enter looks at the buffer only, so the drag flag passes through it. */
  lemma EnterIgnoresDrag(e: Editor)
    requires Sound(e)
    ensures EnterKey(e.(selecting := false)) == EnterKey(e).(selecting := false)
  {
  }

  /** The movement keys look at the buffer only, so the drag flag passes through them. */
  lemma MoveIgnoresDrag(e: Editor, key: Key)
    requires Sound(e)
    ensures MoveKey(e.(selecting := false), key) == MoveKey(e, key).(selecting := false)
  {
  }

  /** The correction only ends the drag: the text, the cursor and the reports are those of the code as written. */
  lemma HandleKeyCorrection(e: Editor, key: Key)
    requires Sound(e) && e.focused
    ensures HandleKey(e, key, true) == HandleKeyAsWritten(e, key, true).(selecting := false)
  {
    match key
    case Backspace => BackspaceIgnoresDrag(e);
    case Delete => DeleteIgnoresDrag(e);
    case Enter => EnterIgnoresDrag(e);
    case _ => MoveIgnoresDrag(e, key);
  }



  /** Glyph widths for the drag example: every character 8 pixels wide. */
  function Mono(c: char): nat { 8 }

  /** The state of the drag example: "a\n" with the cursor on the empty second line, focused, 4 lines visible. */
  function DragStart(): (e: Editor)
    ensures Valid(e) && e.buf.lines == ["a", ""] && e.text == "a\n"
  {
    assert Join(["a", ""]) == "a" + Led([""]);
    assert Led([""]) == "\n" + "" + Led([]);
    Editor(0, 0, 200, 100, Buf(["a", ""], [false, false], Pos(1, 0), Unset, Unset), "a\n",
           0, 4, DefaultLineHeight, true, false, false, [])
  }

  /** A press at the start of the second line anchors there and starts a drag. */
  lemma DragStep1()
    ensures var e1 := MouseButton(DragStart(), 10, 25, true, Mono);
      Valid(e1) && e1.selecting && e1.buf.lines == ["a", ""] && e1.buf.anchor == Pos(1, 0) && e1.buf.head == Pos(1, 0)
  {
    var e0 := DragStart();
    assert ClickedLine(e0, 25) == 1;
    assert CharIndex("", Mono, 5) == 0;
  }

  /** As written, Backspace joins the lines but leaves the drag and its anchor on the vanished line. */
  lemma DragStep2(e1: Editor)
    requires Valid(e1) && e1.focused && e1.selecting && e1.buf.lines == ["a", ""]
    requires e1.buf.anchor == Pos(1, 0) && e1.buf.head == Pos(1, 0) && e1.buf.cur == Pos(1, 0)
    ensures var e2 := HandleKeyAsWritten(e1, Backspace, true);
      Sound(e2) && e2.selecting && e2.focused && e2.buf.lines == ["a"] && e2.buf.anchor == Pos(1, 0)
  {
    var e2 := HandleKeyAsWritten(e1, Backspace, true);
    assert e2.buf == JoinUp(e1.buf);
    var m := MergeLines(["a", ""], 0);
    assert m[0] == "a" + "" == "a";
    assert m == ["a"];
  }

  /** A drag over "a" then selects from the vanished line. */
  lemma DragStep3(e2: Editor)
    requires Sound(e2) && e2.selecting && e2.focused && e2.buf.lines == ["a"] && e2.buf.anchor == Pos(1, 0)
    requires e2.y == 0 && e2.x == 0 && e2.scroll == 0 && e2.lineHeight == DefaultLineHeight
    ensures var e3 := MouseMove(e2, 0, 5, Mono);
      HasSelection(e3.buf) && e3.buf.anchor == Pos(1, 0) && !At(e3.buf, e3.buf.anchor) && !Sound(e3)
  {
    assert ClickedLine(e2, 5) == 0;
    assert CharIndex("a", Mono, -5) == 0;
  }

  /**
   * As written, a key during a drag leaves the anchor where it was: click
   * at the start of the empty second line of "a\n", press Backspace (the
   * lines join into "a"), and move the mouse back over "a". The drag
   * then selects from line 1, which no longer exists.
   */
  lemma DragAcrossJoin()
    ensures var e1 := MouseButton(DragStart(), 10, 25, true, Mono);
      var e2 := HandleKeyAsWritten(e1, Backspace, true);
      var e3 := MouseMove(e2, 0, 5, Mono);
      HasSelection(e3.buf) && !At(e3.buf, e3.buf.anchor) && !Sound(e3)
  {
    DragStep1();
    var e1 := MouseButton(DragStart(), 10, 25, true, Mono);
    DragStep2(e1);
    DragStep3(HandleKeyAsWritten(e1, Backspace, true));
  }

  /** With the correction, the same key ends the drag, so the mouse move changes nothing. */
  lemma DragEndsOnKey()
    ensures var e1 := MouseButton(DragStart(), 10, 25, true, Mono);
      var e2 := HandleKey(e1, Backspace, true);
      Valid(e2) && !e2.selecting && MouseMove(e2, 0, 5, Mono) == e2
  {
    DragStep1();
  }

  /**
   * As written, `setText` with a final '\n' keeps it in the stored text
   * but not in the lines, so the next keystroke loses it: after
   * `setText("a\n")` and typing 'x', the text is "xa".
   */
  lemma TrailingBreakLost()
    ensures var e := SetFocus(SetTextAsWritten(New(0, 0, 200, 100, true), "a\n"), true);
      e.text == "a\n" && !Consistent(e) && HandleChar(e, 120).text == "xa"
    ensures var e := SetFocus(SetText(New(0, 0, 200, 100, true), "a\n"), true);
      HandleChar(e, 120).text == "xa\n"
  {
    SplitExample();
    TrailingBreakAsWritten();
    TrailingBreakCorrected();
  }

  /** How "a" and "a\n" split into lines. */
  lemma SplitExample()
    ensures Split("a") == ["a"] && Split("a\n") == ["a", ""]
  {
    assert "a"[..0] == "";
    assert Split("a") == [""][..0] + ["" + "a"];
    assert "a"[..0] == "" && Split("") == [""] && "a"[0] == 'a';
    assert "" + ['a'] == "a";
    assert "a\n"[..1] == "a" && "a\n"[1] == '\n';
    assert Split("a\n") == Split("a") + [""];
  }

  /** The as-written half of `TrailingBreakLost`. */
  lemma TrailingBreakAsWritten()
    requires Split("a") == ["a"] && Split("a\n") == ["a", ""]
    ensures var e := SetFocus(SetTextAsWritten(New(0, 0, 200, 100, true), "a\n"), true);
      e.text == "a\n" && !Consistent(e) && HandleChar(e, 120).text == "xa"
  {
    var e := SetFocus(SetTextAsWritten(New(0, 0, 200, 100, true), "a\n"), true);
    assert e.buf.lines == ["a"];
    assert Join(["a"]) == "a" + Led([]);
  }

  /** The corrected half of `TrailingBreakLost`. */
  lemma TrailingBreakCorrected()
    requires Split("a\n") == ["a", ""]
    ensures var e := SetFocus(SetText(New(0, 0, 200, 100, true), "a\n"), true);
      HandleChar(e, 120).text == "xa\n"
  {
    var e' := SetFocus(SetText(New(0, 0, 200, 100, true), "a\n"), true);
    assert Caret(e'.buf) == 0;
  }
}
