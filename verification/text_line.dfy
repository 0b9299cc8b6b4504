/**
 * The single-line editing buffer shared by the text box and the combo
 * box: the text, a cursor between characters, and a selection given by
 * its two ends (the anchor and the moving end, each -1 when unset).
 * Pixel offsets, which depend on glyph widths, are not part of it.
 */
module TextLine {
  import opened Common

  datatype Line = Line(text: string, cursor: int, selStart: int, selEnd: int)

  /** A position between characters, 0 to the length inclusive. */
  predicate InText(l: Line, p: int) {
    0 <= p <= |l.text|
  }

  /**
   * The buffer invariant: the cursor lies in the text, and so do both ends
   * of a selection. Each end is -1 or a position; a collapsed pair of ends
   * is not a selection and may be left behind by an edit.
   */
  predicate Valid(l: Line) {
    InText(l, l.cursor) && l.selStart >= -1 && l.selEnd >= -1 &&
    (HasSelection(l) ==> InText(l, l.selStart) && InText(l, l.selEnd))
  }

  /** The anchor a drag extends from is unset or in the text. */
  predicate Anchored(l: Line) {
    l.selStart == -1 || InText(l, l.selStart)
  }

  /** `setText` of the text box: cursor at the end, no selection. */
  function FromText(text: string): (l: Line)
    ensures Valid(l) && l.text == text && l.cursor == |text|
    ensures l.selStart == -1 && l.selEnd == -1
  {
    Line(text, |text|, -1, -1)
  }

  /** `hasSelection`: both ends set and different. */
  predicate HasSelection(l: Line) {
    l.selStart != -1 && l.selEnd != -1 && l.selStart != l.selEnd
  }

  /** `getSelectionStart`: the lower end, or -1 while either end is unset. */
  function SelectionStart(l: Line): (r: int)
    ensures l.selStart == -1 || l.selEnd == -1 ==> r == -1
    ensures l.selStart != -1 && l.selEnd != -1 ==>
      r <= l.selStart && r <= l.selEnd && (r == l.selStart || r == l.selEnd)
  {
    if l.selStart == -1 || l.selEnd == -1 then -1 else Min(l.selStart, l.selEnd)
  }

  /** `getSelectionEnd`: the upper end, or -1 while either end is unset. */
  function SelectionEnd(l: Line): (r: int)
    ensures l.selStart == -1 || l.selEnd == -1 ==> r == -1
    ensures l.selStart != -1 && l.selEnd != -1 ==>
      r >= l.selStart && r >= l.selEnd && (r == l.selStart || r == l.selEnd)
  {
    if l.selStart == -1 || l.selEnd == -1 then -1 else Max(l.selStart, l.selEnd)
  }

  /** A selection is a non-empty range of the text whichever way it was dragged. */
  lemma SelectionRange(l: Line)
    requires Valid(l)
    ensures HasSelection(l) <==> 0 <= SelectionStart(l) < SelectionEnd(l) <= |l.text|
  {
  }

  /** `getSelectedText`: the characters between the two ends, or "" without a selection. */
  function SelectedText(l: Line): (r: string)
    requires Valid(l)
    ensures !HasSelection(l) ==> r == ""
    ensures HasSelection(l) ==> |r| == SelectionEnd(l) - SelectionStart(l) > 0
    ensures HasSelection(l) ==> forall i :: 0 <= i < |r| ==> r[i] == l.text[SelectionStart(l) + i]
  {
    if HasSelection(l) then l.text[SelectionStart(l)..SelectionEnd(l)] else ""
  }

  /** Insert `s` at the cursor and move the cursor past it. */
  function InsertText(l: Line, s: string): (r: Line)
    requires Valid(l)
    ensures r.cursor == l.cursor + |s| && |r.text| == |l.text| + |s|
    ensures r.text[..l.cursor] == l.text[..l.cursor]
    ensures r.text[l.cursor..r.cursor] == s
    ensures r.text[r.cursor..] == l.text[l.cursor..]
    ensures r.selStart == l.selStart && r.selEnd == l.selEnd
  {
    l.(text := l.text[..l.cursor] + s + l.text[l.cursor..], cursor := l.cursor + |s|)
  }

  /** `deleteSelection`: erase the selected range, leave the cursor at its start, clear both ends. */
  function DeleteSelection(l: Line): (r: Line)
    requires Valid(l)
    ensures Valid(r)
    ensures !HasSelection(l) ==> r == l
    ensures HasSelection(l) ==>
      |r.text| == |l.text| - |SelectedText(l)| &&
      r.cursor == SelectionStart(l) && r.selStart == -1 && r.selEnd == -1 &&
      r.text[..r.cursor] == l.text[..SelectionStart(l)] && r.text[r.cursor..] == l.text[SelectionEnd(l)..]
  {
    if HasSelection(l) then
      var s, e := SelectionStart(l), SelectionEnd(l);
      Line(l.text[..s] + l.text[e..], s, -1, -1)
    else l
  }

  /** A printable character: delete any selection, insert at the cursor, advance. */
  function TypeChar(l: Line, c: char): (r: Line)
    requires Valid(l)
    ensures Valid(r)
    ensures var d := DeleteSelection(l);
      r.text == d.text[..d.cursor] + [c] + d.text[d.cursor..] && r.cursor == d.cursor + 1
  {
    InsertText(DeleteSelection(l), [c])
  }

  /** Backspace: delete the selection, else the character before the cursor. */
  function Backspace(l: Line): (r: Line)
    requires Valid(l)
    ensures Valid(r)
    ensures HasSelection(l) ==> r == DeleteSelection(l)
    ensures !HasSelection(l) && l.cursor > 0 ==>
      r.text == RemoveAt(l.text, l.cursor - 1) && r.cursor == l.cursor - 1 &&
      r.selStart == l.selStart && r.selEnd == l.selEnd
    ensures !HasSelection(l) && l.cursor == 0 ==> r == l
  {
    if HasSelection(l) then DeleteSelection(l)
    else if l.cursor > 0 then
      l.(text := RemoveAt(l.text, l.cursor - 1), cursor := l.cursor - 1)
    else l
  }

  /** Delete: delete the selection, else the character at the cursor; the cursor stays. */
  function DeleteForward(l: Line): (r: Line)
    requires Valid(l)
    ensures Valid(r)
    ensures HasSelection(l) ==> r == DeleteSelection(l)
    ensures !HasSelection(l) && l.cursor < |l.text| ==>
      r.text == RemoveAt(l.text, l.cursor) && r.cursor == l.cursor &&
      r.selStart == l.selStart && r.selEnd == l.selEnd
    ensures !HasSelection(l) && l.cursor == |l.text| ==> r == l
  {
    if HasSelection(l) then DeleteSelection(l)
    else if l.cursor < |l.text| then
      l.(text := RemoveAt(l.text, l.cursor))
    else l
  }

  /** Left arrow: move back one place, clearing the selection, unless at the start. */
  function MoveLeft(l: Line): (r: Line)
    ensures l.cursor > 0 ==> r == Line(l.text, l.cursor - 1, -1, -1)
    ensures l.cursor <= 0 ==> r == l
  {
    if l.cursor > 0 then Line(l.text, l.cursor - 1, -1, -1) else l
  }

  /** Right arrow: move forward one place, clearing the selection, unless at the end. */
  function MoveRight(l: Line): (r: Line)
    ensures l.cursor < |l.text| ==> r == Line(l.text, l.cursor + 1, -1, -1)
    ensures l.cursor >= |l.text| ==> r == l
  {
    if l.cursor < |l.text| then Line(l.text, l.cursor + 1, -1, -1) else l
  }

  /** Home and End: jump to either end of the text and clear the selection. */
  function MoveHome(l: Line): (r: Line)
    ensures r == Line(l.text, 0, -1, -1)
  {
    Line(l.text, 0, -1, -1)
  }

  function MoveEnd(l: Line): (r: Line)
    ensures r == Line(l.text, |l.text|, -1, -1)
  {
    Line(l.text, |l.text|, -1, -1)
  }

  /** `selectAll`: select [0, len] with the cursor at the end. */
  function SelectAll(l: Line): (r: Line)
    ensures Valid(r) && r.text == l.text
    ensures r.selStart == 0 && r.selEnd == |l.text| && r.cursor == |l.text|
  {
    Line(l.text, |l.text|, 0, |l.text|)
  }

  /** A mouse press at character index `i`: cursor there and a collapsed selection anchored there. */
  function Anchor(l: Line, i: int): (r: Line)
    ensures r == Line(l.text, i, i, i) && !HasSelection(r)
  {
    Line(l.text, i, i, i)
  }

  /** Dragging to character index `i` moves the cursor and the selection's moving end. */
  function DragTo(l: Line, i: int): (r: Line)
    ensures r.text == l.text && r.selStart == l.selStart && r.selEnd == i && r.cursor == i
  {
    l.(cursor := i, selEnd := i)
  }

  /** Releasing the mouse forgets a selection that never opened. */
  function Collapse(l: Line): (r: Line)
    ensures l.selStart == l.selEnd ==> r == l.(selStart := -1, selEnd := -1)
    ensures l.selStart != l.selEnd ==> r == l
  {
    if l.selStart == l.selEnd then l.(selStart := -1, selEnd := -1) else l
  }

  /*
   * Lemmas.
   */

  /** Every edit keeps the cursor and the selection inside the text. */
  lemma ValidKept(l: Line, c: char, i: int)
    requires Valid(l)
    ensures Valid(MoveLeft(l)) && Valid(MoveRight(l)) && Valid(MoveHome(l)) && Valid(MoveEnd(l))
    ensures InText(l, i) ==> Valid(Anchor(l, i)) && Anchored(Anchor(l, i))
    ensures InText(l, i) && Anchored(l) ==> Valid(DragTo(l, i)) && Anchored(DragTo(l, i))
    ensures Valid(Collapse(l))
  {
  }

  /** Re-inserting the deleted text at the cursor restores the original text. */
  lemma {:induction false} DeleteSelectionUndone(l: Line)
    requires Valid(l) && HasSelection(l)
    ensures InsertText(DeleteSelection(l), SelectedText(l)).text == l.text
    ensures InsertText(DeleteSelection(l), SelectedText(l)).cursor == SelectionEnd(l)
  {
    var s, e := SelectionStart(l), SelectionEnd(l);
    assert l.text == l.text[..s] + l.text[s..e] + l.text[e..];
  }

  /** Backspace undoes a typed character when nothing was selected. */
  lemma TypeThenBackspace(l: Line, c: char)
    requires Valid(l) && !HasSelection(l)
    ensures Backspace(TypeChar(l, c)).text == l.text
    ensures Backspace(TypeChar(l, c)).cursor == l.cursor
  {
    var t := TypeChar(l, c);
    assert t.text == l.text[..l.cursor] + [c] + l.text[l.cursor..];
    assert RemoveAt(t.text, l.cursor) == l.text;
  }

  /** Typing over a full selection replaces the whole text. */
  lemma SelectAllThenType(l: Line, c: char)
    requires |l.text| > 0
    ensures TypeChar(SelectAll(l), c).text == [c]
    ensures SelectedText(SelectAll(l)) == l.text
  {
  }

  /** Left and right undo each other away from the ends. */
  lemma LeftRightInverse(l: Line)
    requires Valid(l)
    ensures l.cursor > 0 ==> MoveRight(MoveLeft(l)).cursor == l.cursor
    ensures l.cursor < |l.text| ==> MoveLeft(MoveRight(l)).cursor == l.cursor
  {
  }

  /** A press at one index and a drag to another select exactly the characters in between. */
  lemma DragSelects(l: Line, i: int, j: int)
    requires InText(l, i) && InText(l, j) && i != j
    ensures var d := DragTo(Anchor(l, i), j);
      HasSelection(d) && SelectedText(d) == l.text[Min(i, j)..Max(i, j)]
  {
  }
}
