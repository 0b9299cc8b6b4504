/**
 * The editing buffer of the multi-line text box: the list of lines (none
 * holding a '\n'), the per-line wrap flags kept in step with it, the
 * cursor, and the two selection ends (the anchor, where a mouse press
 * started, and the head, where the drag is now), each a (line, column)
 * place with line -1 when unset.
 *
 * Every operation here is also stated on the joined text `Flat(b)` (the
 * lines separated by '\n', which is what `rebuildTextFromLines` produces)
 * with the cursor at the offset `Caret(b)`: typing inserts at the caret,
 * Backspace removes the character before it, and so on, whether or not
 * the edit crosses a line boundary.
 *
 * Word wrapping is disabled in this model: it depends on glyph widths,
 * and with no line wider than the box `checkAndWrapCurrentLine` changes
 * nothing (its final column clamp is a no-op on a well-formed buffer).
 */
module MultiLineBuffer {
  import opened Common
  import opened TextLines

  /** A place in the text; line -1 marks an unset selection end. */
  datatype Pos = Pos(line: int, col: int)

  const Unset: Pos := Pos(-1, -1)

  datatype Buf = Buf(lines: seq<string>, wrapped: seq<bool>, cur: Pos, anchor: Pos, head: Pos)

  /** An empty buffer: one empty line, cursor at its start, nothing selected. */
  function Empty(): (b: Buf)
    ensures Wf(b) && Flat(b) == "" && Caret(b) == 0 && !HasSelection(b)
  {
    assert Join([""]) == "" + Led([]);
    Buf([""], [false], Pos(0, 0), Unset, Unset)
  }

  predicate At(b: Buf, p: Pos) {
    InLines(b.lines, p.line, p.col)
  }

  /** `hasSelection`: both ends set and not the same place. */
  predicate HasSelection(b: Buf) {
    b.anchor.line != -1 && b.head.line != -1 && b.anchor != b.head
  }

  /**
   * The buffer invariant: at least one line, the wrap flags in step with
   * the lines, no line holding a break, the cursor on a place of the text,
   * and both ends of a selection too.
   */
  predicate Wf(b: Buf) {
    |b.lines| >= 1 && |b.wrapped| == |b.lines| && NoBreaks(b.lines) && At(b, b.cur) &&
    (HasSelection(b) ==> At(b, b.anchor) && At(b, b.head))
  }

  /** The joined text. */
  function Flat(b: Buf): string {
    Join(b.lines)
  }

  /** The offset of a place in the joined text. */
  function Off(b: Buf, p: Pos): (r: int)
    requires At(b, p)
    ensures 0 <= r <= |Flat(b)|
  {
    OffsetRange(b.lines, p.line, p.col);
    Offset(b.lines, p.line, p.col)
  }

  /** The offset of the cursor. */
  function Caret(b: Buf): (r: int)
    requires At(b, b.cur)
    ensures 0 <= r <= |Flat(b)|
  {
    Off(b, b.cur)
  }

  /** `clearSelection`. */
  function Clear(b: Buf): (r: Buf)
    ensures r.lines == b.lines && r.wrapped == b.wrapped && r.cur == b.cur
    ensures r.anchor == Unset && r.head == Unset && !HasSelection(r)
  {
    b.(anchor := Unset, head := Unset)
  }

  /** `getSelectionBounds`: the two ends in (line, column) order; the anchor first on a tie. */
  function SelectionBounds(b: Buf): (r: (Pos, Pos))
    ensures r == (b.anchor, b.head) || r == (b.head, b.anchor)
    ensures Before(r.0.line, r.0.col, r.1.line, r.1.col)
    ensures Before(b.anchor.line, b.anchor.col, b.head.line, b.head.col) ==> r.0 == b.anchor
  {
    if Before(b.anchor.line, b.anchor.col, b.head.line, b.head.col) then (b.anchor, b.head) else (b.head, b.anchor)
  }

  /** The selection is the stretch of the joined text between the offsets of its two ends, whichever way it was dragged. */
  lemma SelectionOffsets(b: Buf)
    requires Wf(b) && HasSelection(b)
    ensures var (s, e) := SelectionBounds(b);
      At(b, s) && At(b, e) &&
      Off(b, s) == Min(Off(b, b.anchor), Off(b, b.head)) &&
      Off(b, e) == Max(Off(b, b.anchor), Off(b, b.head)) &&
      0 <= Off(b, s) < Off(b, e) <= |Flat(b)|
  {
    var a, h := b.anchor, b.head;
    OffsetOrdered(b.lines, a.line, a.col, h.line, h.col);
    OffsetOrdered(b.lines, h.line, h.col, a.line, a.col);
    OffsetRange(b.lines, a.line, a.col);
    OffsetRange(b.lines, h.line, h.col);
  }

  /**
   * `deleteSelection`: remove the selected stretch, leave the cursor at
   * its start and clear both ends. In the joined text, exactly the
   * characters between the two offsets go.
   */
  function DeleteSelection(b: Buf): (r: Buf)
    requires Wf(b)
    ensures Wf(r) && !HasSelection(r)
    ensures !HasSelection(b) ==> r == b
    ensures HasSelection(b) ==>
      var (s, e) := SelectionBounds(b);
      var f := Flat(b);
      At(b, s) && At(b, e) && 0 <= Off(b, s) < Off(b, e) <= |f| &&
      Flat(r) == f[..Off(b, s)] + f[Off(b, e)..] && Caret(r) == Off(b, s) &&
      r.anchor == Unset && r.head == Unset
  {
    if HasSelection(b) then
      var (s, e) := SelectionBounds(b);
      SelectionOffsets(b);
      RemoveRangeFlat(b.lines, s.line, s.col, e.line, e.col);
      var ls := RemoveRange(b.lines, s.line, s.col, e.line, e.col);
      assert ls[..s.line] == b.lines[..s.line];
      Buf(ls, b.wrapped[..s.line + 1] + b.wrapped[e.line + 1..], s, Unset, Unset)
    else b
  }

  /** `insertCharAtCursor`: the character goes in at the caret, which moves past it; the selection ends stay. */
  function InsertChar(b: Buf, c: char): (r: Buf)
    requires Wf(b) && c != '\n'
    ensures Wf(r) && r.anchor == b.anchor && r.head == b.head
    ensures var f, k := Flat(b), Caret(b);
      0 <= k <= |f| && Flat(r) == f[..k] + [c] + f[k..] && Caret(r) == k + 1
    ensures forall p :: At(b, p) ==> At(r, p)
  {
    var l, col := b.cur.line, b.cur.col;
    InsertFlat(b.lines, l, col, [c]);
    var ls := InsertInLine(b.lines, l, col, [c]);
    assert ls[..l] == b.lines[..l];
    b.(lines := ls, cur := Pos(l, col + 1))
  }

  /**
   * Backspace: with a selection, delete it. Otherwise remove the character
   * before the cursor; at the start of a line that is the break, so the
   * line joins the previous one with the cursor at the join. At the very
   * start nothing happens.
   */
  function EraseBack(b: Buf): (r: Buf)
    requires Wf(b)
    ensures Wf(r)
    ensures HasSelection(b) ==> r == DeleteSelection(b)
    ensures !HasSelection(b) && Caret(b) == 0 ==> r == b
    ensures !HasSelection(b) && Caret(b) > 0 ==>
      Flat(r) == RemoveAt(Flat(b), Caret(b) - 1) && Caret(r) == Caret(b) - 1 &&
      r.anchor == b.anchor && r.head == b.head
  {
    if HasSelection(b) then DeleteSelection(b) else ErasePrevious(b)
  }

  /** Backspace with no selection: the character or break before the cursor goes, if there is one. */
  function ErasePrevious(b: Buf): (r: Buf)
    requires Wf(b) && !HasSelection(b)
    ensures Wf(r)
    ensures Caret(b) == 0 ==> r == b
    ensures Caret(b) > 0 ==>
      Flat(r) == RemoveAt(Flat(b), Caret(b) - 1) && Caret(r) == Caret(b) - 1 &&
      r.anchor == b.anchor && r.head == b.head
  {
    OffsetRange(b.lines, b.cur.line, b.cur.col);
    if b.cur.col > 0 then
      var c := b.(cur := Pos(b.cur.line, b.cur.col - 1));
      assert Caret(c) == Caret(b) - 1;
      EraseAtCursor(c)
    else if b.cur.line > 0 then JoinUp(b)
    else b
  }

  /** `deleteCharAtCursor`: the character at the cursor goes; the cursor stays. */
  function EraseAtCursor(b: Buf): (r: Buf)
    requires Wf(b) && !HasSelection(b) && b.cur.col < |b.lines[b.cur.line]|
    ensures Wf(r) && r.cur == b.cur && r.anchor == b.anchor && r.head == b.head
    ensures Caret(b) < |Flat(b)| && Flat(r) == RemoveAt(Flat(b), Caret(b)) && Caret(r) == Caret(b)
  {
    var l, col := b.cur.line, b.cur.col;
    EraseFlat(b.lines, l, col);
    var ls := EraseInLine(b.lines, l, col);
    assert ls[..l] == b.lines[..l];
    b.(lines := ls)
  }

  /** Backspace at the start of a line below the first: the line joins the previous one. */
  function JoinUp(b: Buf): (r: Buf)
    requires Wf(b) && !HasSelection(b) && b.cur.col == 0 && b.cur.line > 0
    ensures Wf(r) && r.anchor == b.anchor && r.head == b.head
    ensures Caret(b) > 0 && Flat(r) == RemoveAt(Flat(b), Caret(b) - 1) && Caret(r) == Caret(b) - 1
  {
    var l := b.cur.line;
    var j, k := Join(b.lines), Offset(b.lines, l - 1, |b.lines[l - 1]|);
    MergeFlat(b.lines, l - 1);
    OffsetNextLine(b.lines, l - 1);
    assert Caret(b) == k + 1;
    var ls := MergeLines(b.lines, l - 1);
    assert Join(ls) == j[..k] + j[k + 1..];
    assert ls[..l - 1] == b.lines[..l - 1];
    assert Offset(ls, l - 1, |b.lines[l - 1]|) == k;
    var r := b.(lines := ls, wrapped := RemoveAt(b.wrapped, l), cur := Pos(l - 1, |b.lines[l - 1]|));
    assert At(r, r.cur);
    r
  }

  /**
   * Delete: with a selection, delete it. Otherwise remove the character at
   * the cursor; at the end of a line that is the break, so the next line
   * joins this one. At the very end nothing happens. The cursor stays.
   */
  function EraseForward(b: Buf): (r: Buf)
    requires Wf(b)
    ensures Wf(r)
    ensures HasSelection(b) ==> r == DeleteSelection(b)
    ensures !HasSelection(b) && Caret(b) == |Flat(b)| ==> r == b
    ensures !HasSelection(b) && Caret(b) < |Flat(b)| ==>
      Flat(r) == RemoveAt(Flat(b), Caret(b)) && Caret(r) == Caret(b) &&
      r.anchor == b.anchor && r.head == b.head
  {
    OffsetRange(b.lines, b.cur.line, b.cur.col);
    if HasSelection(b) then DeleteSelection(b)
    else if b.cur.col < |b.lines[b.cur.line]| then EraseAtCursor(b)
    else if b.cur.line < |b.lines| - 1 then JoinDown(b)
    else b
  }

  /** Delete at the end of a line above the last: the next line joins this one. */
  function JoinDown(b: Buf): (r: Buf)
    requires Wf(b) && !HasSelection(b) && b.cur.col == |b.lines[b.cur.line]| && b.cur.line < |b.lines| - 1
    ensures Wf(r) && r.cur == b.cur && r.anchor == b.anchor && r.head == b.head
    ensures Caret(b) < |Flat(b)| && Flat(r) == RemoveAt(Flat(b), Caret(b)) && Caret(r) == Caret(b)
  {
    var l := b.cur.line;
    MergeFlat(b.lines, l);
    var ls := MergeLines(b.lines, l);
    assert ls[..l] == b.lines[..l];
    b.(lines := ls, wrapped := RemoveAt(b.wrapped, l + 1))
  }

  /**
   * Enter: delete any selection, then split the cursor line at the cursor;
   * the cursor moves to the start of the new line. In the joined text, a
   * break goes in at the caret.
   */
  function NewLine(b: Buf): (r: Buf)
    requires Wf(b)
    ensures Wf(r) && |r.lines| == |DeleteSelection(b).lines| + 1
    ensures var d := DeleteSelection(b); var f, k := Flat(d), Caret(d);
      0 <= k <= |f| && Flat(r) == f[..k] + "\n" + f[k..] && Caret(r) == k + 1 &&
      r.cur == Pos(d.cur.line + 1, 0)
  {
    var d := DeleteSelection(b);
    var l, col := d.cur.line, d.cur.col;
    BreakFlat(d.lines, l, col);
    var ls := BreakLine(d.lines, l, col);
    assert ls[..l] == d.lines[..l];
    OffsetNextLine(ls, l);
    d.(lines := ls, wrapped := InsertAt(d.wrapped, l + 1, false), cur := Pos(l + 1, 0))
  }

  /*
   * Cursor moves. Shift is never passed as held, so every move clears the selection.
   */

  /** Left arrow: one place back, across the break to the end of the previous line. */
  function MoveLeft(b: Buf): (r: Buf)
    requires Wf(b)
    ensures Wf(r) && r.lines == b.lines && r.wrapped == b.wrapped && r.anchor == Unset && r.head == Unset
    ensures Caret(b) > 0 ==> Caret(r) == Caret(b) - 1
    ensures Caret(b) == 0 ==> r.cur == b.cur
  {
    var l, col := b.cur.line, b.cur.col;
    OffsetRange(b.lines, l, col);
    if col > 0 then Clear(b).(cur := Pos(l, col - 1))
    else if l > 0 then
      OffsetNextLine(b.lines, l - 1);
      Clear(b).(cur := Pos(l - 1, |b.lines[l - 1]|))
    else Clear(b)
  }

  /** Right arrow: one place forward, across the break to the start of the next line. */
  function MoveRight(b: Buf): (r: Buf)
    requires Wf(b)
    ensures Wf(r) && r.lines == b.lines && r.wrapped == b.wrapped && r.anchor == Unset && r.head == Unset
    ensures Caret(b) < |Flat(b)| ==> Caret(r) == Caret(b) + 1
    ensures Caret(b) == |Flat(b)| ==> r.cur == b.cur
  {
    var l, col := b.cur.line, b.cur.col;
    OffsetRange(b.lines, l, col);
    if col < |b.lines[l]| then Clear(b).(cur := Pos(l, col + 1))
    else if l < |b.lines| - 1 then
      OffsetNextLine(b.lines, l);
      Clear(b).(cur := Pos(l + 1, 0))
    else Clear(b)
  }

  /** Up arrow: the previous line, the column clamped to its length; never forward in the text. */
  function MoveUp(b: Buf): (r: Buf)
    requires Wf(b)
    ensures Wf(r) && r.lines == b.lines && r.wrapped == b.wrapped && r.anchor == Unset && r.head == Unset
    ensures b.cur.line > 0 ==> r.cur == Pos(b.cur.line - 1, Min(b.cur.col, |b.lines[b.cur.line - 1]|))
    ensures b.cur.line == 0 ==> r.cur == b.cur
    ensures Caret(r) <= Caret(b)
  {
    var l, col := b.cur.line, b.cur.col;
    if l > 0 then
      var r := Clear(b).(cur := Pos(l - 1, Min(col, |b.lines[l - 1]|)));
      OffsetOrdered(b.lines, l - 1, r.cur.col, l, col);
      r
    else Clear(b)
  }

  /** Down arrow: the next line, the column clamped to its length; never backward in the text. */
  function MoveDown(b: Buf): (r: Buf)
    requires Wf(b)
    ensures Wf(r) && r.lines == b.lines && r.wrapped == b.wrapped && r.anchor == Unset && r.head == Unset
    ensures b.cur.line < |b.lines| - 1 ==> r.cur == Pos(b.cur.line + 1, Min(b.cur.col, |b.lines[b.cur.line + 1]|))
    ensures b.cur.line == |b.lines| - 1 ==> r.cur == b.cur
    ensures Caret(r) >= Caret(b)
  {
    var l, col := b.cur.line, b.cur.col;
    if l < |b.lines| - 1 then
      var r := Clear(b).(cur := Pos(l + 1, Min(col, |b.lines[l + 1]|)));
      OffsetOrdered(b.lines, l, col, l + 1, r.cur.col);
      r
    else Clear(b)
  }

  /** Home: the start of the cursor line. */
  function MoveHome(b: Buf): (r: Buf)
    requires Wf(b)
    ensures Wf(r) && r.lines == b.lines && r.wrapped == b.wrapped && r.anchor == Unset && r.head == Unset
    ensures r.cur == Pos(b.cur.line, 0)
  {
    Clear(b).(cur := Pos(b.cur.line, 0))
  }

  /** End: the end of the cursor line. */
  function MoveEnd(b: Buf): (r: Buf)
    requires Wf(b)
    ensures Wf(r) && r.lines == b.lines && r.wrapped == b.wrapped && r.anchor == Unset && r.head == Unset
    ensures r.cur == Pos(b.cur.line, |b.lines[b.cur.line]|)
  {
    Clear(b).(cur := Pos(b.cur.line, |b.lines[b.cur.line]|))
  }

  /** `selectAll`: from the start of the first line to the end of the last, cursor at the end. */
  function SelectAll(b: Buf): (r: Buf)
    requires Wf(b)
    ensures Wf(r) && r.lines == b.lines && r.wrapped == b.wrapped
    ensures r.anchor == Pos(0, 0) && r.cur == r.head && Caret(r) == |Flat(b)|
    ensures HasSelection(r) <==> Flat(b) != ""
  {
    var last := |b.lines| - 1;
    var e := Pos(last, |b.lines[last]|);
    OffsetRange(b.lines, last, |b.lines[last]|);
    OffsetRange(b.lines, 0, 0);
    b.(anchor := Pos(0, 0), head := e, cur := e)
  }

  /** A mouse press at place `p`: the cursor and both ends go there. */
  function Press(b: Buf, p: Pos): (r: Buf)
    requires Wf(b) && At(b, p)
    ensures Wf(r) && r.lines == b.lines && r.cur == p && r.anchor == p && r.head == p && !HasSelection(r)
  {
    b.(cur := p, anchor := p, head := p)
  }

  /** A drag to place `p`: the cursor and the moving end go there. */
  function DragTo(b: Buf, p: Pos): (r: Buf)
    requires Wf(b) && At(b, p) && (b.anchor.line == -1 || At(b, b.anchor))
    ensures Wf(r) && r.lines == b.lines && r.cur == p && r.head == p && r.anchor == b.anchor
  {
    b.(cur := p, head := p)
  }

  /*
   * Lemmas.
   */

  /** Left and Right undo each other away from the ends of the text. */
  lemma LeftRightInverse(b: Buf)
    requires Wf(b)
    ensures Caret(b) > 0 ==> MoveRight(MoveLeft(b)).cur == b.cur
    ensures Caret(b) < |Flat(b)| ==> MoveLeft(MoveRight(b)).cur == b.cur
  {
    var l, c := b.cur.line, b.cur.col;
    if Caret(b) > 0 {
      var m := MoveLeft(b);
      OffsetInjective(b.lines, MoveRight(m).cur, b.cur);
    }
    if Caret(b) < |Flat(b)| {
      var m := MoveRight(b);
      OffsetInjective(b.lines, MoveLeft(m).cur, b.cur);
    }
  }

  /** Two places with the same offset are the same place. */
  lemma OffsetInjective(ls: seq<string>, p: Pos, q: Pos)
    requires InLines(ls, p.line, p.col) && InLines(ls, q.line, q.col)
    requires Offset(ls, p.line, p.col) == Offset(ls, q.line, q.col)
    ensures p == q
  {
    OffsetOrdered(ls, p.line, p.col, q.line, q.col);
    OffsetOrdered(ls, q.line, q.col, p.line, p.col);
  }

  /** Up then Down returns to the same place when the line above is long enough. */
  lemma UpDownInverse(b: Buf)
    requires Wf(b) && b.cur.line > 0 && b.cur.col <= |b.lines[b.cur.line - 1]|
    ensures MoveDown(MoveUp(b)).cur == b.cur
  {
  }

  /**
   * Home and End bracket the cursor line in the joined text: the line's
   * characters lie between them, a break (or the start) comes just
   * before Home, and a break (or the end) just at End.
   */
  lemma HomeEndBracketLine(b: Buf)
    requires Wf(b)
    ensures var f, h, e := Flat(b), Caret(MoveHome(b)), Caret(MoveEnd(b));
      0 <= h <= Caret(b) <= e <= |f| && f[h..e] == b.lines[b.cur.line] &&
      (h == 0 || f[h - 1] == '\n') && (e == |f| || f[e] == '\n')
  {
    var l := b.cur.line;
    LineInText(b.lines, l);
    OffsetOrdered(b.lines, l, 0, l, b.cur.col);
    OffsetOrdered(b.lines, l, b.cur.col, l, |b.lines[l]|);
    if l > 0 {
      LineInText(b.lines, l - 1);
      OffsetNextLine(b.lines, l - 1);
    }
    OffsetRange(b.lines, l, 0);
  }

  /** Selecting everything and deleting it leaves one empty line with the cursor at its start. */
  lemma SelectAllThenDelete(b: Buf)
    requires Wf(b) && Flat(b) != ""
    ensures var r := DeleteSelection(SelectAll(b));
      Flat(r) == "" && r.lines == [""] && r.cur == Pos(0, 0)
  {
    var s := SelectAll(b);
    SelectionOffsets(s);
    var r := DeleteSelection(s);
    assert Flat(r) == "";
    assert |r.lines| == 1;
    assert Join(r.lines) == r.lines[0] + Led([]);
  }

  /** A typed character followed by Backspace restores the text and the caret. */
  lemma InsertThenEraseBack(b: Buf, c: char)
    requires Wf(b) && c != '\n' && !HasSelection(b)
    ensures Flat(EraseBack(InsertChar(b, c))) == Flat(b)
    ensures Caret(EraseBack(InsertChar(b, c))) == Caret(b)
  {
    var f, k := Flat(b), Caret(b);
    OffsetRange(b.lines, b.cur.line, b.cur.col);
    var t := f[..k] + [c] + f[k..];
    assert RemoveAt(t, k) == f by {
      assert t[..k] == f[..k] && t[k + 1..] == f[k..];
    }
  }

  /** Enter followed by Backspace restores the text and the caret. */
  lemma NewLineThenEraseBack(b: Buf)
    requires Wf(b) && !HasSelection(b)
    ensures Flat(EraseBack(NewLine(b))) == Flat(b)
    ensures Caret(EraseBack(NewLine(b))) == Caret(b)
  {
    var f, k := Flat(b), Caret(b);
    OffsetRange(b.lines, b.cur.line, b.cur.col);
    var t := f[..k] + "\n" + f[k..];
    assert RemoveAt(t, k) == f by {
      assert t[..k] == f[..k] && t[k + 1..] == f[k..];
    }
  }
}
