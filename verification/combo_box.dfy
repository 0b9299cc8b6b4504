/**
 * The combo box: an editable `TextLine` above a drop-down list of items.
 * The change callback's calls are recorded in `changes` (each carries the
 * text), the selection callback's in `selections`. The character index
 * under the mouse depends on glyph widths and is passed in as `index`.
 *
 * Three places where the source lets the selection or the hovered item
 * point past the data it indexes are modelled twice: `…AsWritten` as the
 * source has them, with a lemma exhibiting the failure, and the corrected
 * member, which the rest of the model uses.
 */
module ComboBox {
  import opened Common
  import opened Keys
  import opened TextLine
  import WidgetBase

  const MaxVisible: int := 8
  const ButtonWidth: int := 20
  const ItemHeight: int := 25

  datatype Combo = Combo(
    width: int, height: int,
    items: seq<string>, line: Line,
    open: bool, focused: bool, selecting: bool,
    hovered: int, selected: int, scroll: int,
    hasChange: bool, hasSelect: bool,
    changes: seq<string>, selections: seq<(int, string)>)

  /** The constructor: empty text and list, closed, nothing hovered or selected. */
  function New(width: int, height: int, hasChange: bool, hasSelect: bool): (c: Combo)
    ensures c.items == [] && c.line == Line("", 0, -1, -1)
    ensures !c.open && !c.focused && !c.selecting
    ensures c.hovered == -1 && c.selected == -1 && c.scroll == 0
    ensures c.changes == [] && c.selections == []
  {
    Combo(width, height, [], Line("", 0, -1, -1), false, false, false, -1, -1, 0,
          hasChange, hasSelect, [], [])
  }

  /**
   * The state the corrected combo box keeps: a valid buffer, a drag only
   * from an anchor in the text, and the selected and hovered indices each
   * an item or -1.
   */
  predicate Valid(c: Combo) {
    TextLine.Valid(c.line) && (c.selecting ==> Anchored(c.line)) &&
    -1 <= c.selected < |c.items| && -1 <= c.hovered < |c.items|
  }

  /** The change callback, if installed, receives the current text. */
  function Changed(c: Combo): (r: Combo)
    ensures r == c.(changes := r.changes)
    ensures r.changes == c.changes + (if c.hasChange then [c.line.text] else [])
  {
    if c.hasChange then c.(changes := c.changes + [c.line.text]) else c
  }

  /**
   * `deleteSelection` as the source writes it, with `substr`: a selection
   * whose upper end lies past the text makes `substr` throw
   * `std::out_of_range` (None here). The ends are only ever set to -1 or
   * to positions, never below -1.
   */
  function SubstrErase(l: Line): (r: Option<Line>)
    requires l.selStart >= -1 && l.selEnd >= -1
    ensures !HasSelection(l) ==> r == Some(l)
    ensures HasSelection(l) ==> (r.None? <==> SelectionEnd(l) > |l.text|)
  {
    if !HasSelection(l) then Some(l)
    else
      var s, e := SelectionStart(l), SelectionEnd(l);
      if e > |l.text| then None else Some(Line(l.text[..s] + l.text[e..], s, -1, -1))
  }

  /** On a valid buffer the source's erase never throws and agrees with `TextLine.DeleteSelection`. */
  lemma SubstrEraseValid(l: Line)
    requires TextLine.Valid(l)
    ensures SubstrErase(l) == Some(DeleteSelection(l))
  {
  }

  /** `addItem`. */
  function AddItem(c: Combo, item: string): (r: Combo)
    ensures r == c.(items := c.items + [item])
  {
    c.(items := c.items + [item])
  }

  /** `clearItems` as written: the hovered index survives the list it pointed into. */
  function ClearItemsAsWritten(c: Combo): (r: Combo)
    ensures r.items == [] && r.scroll == 0 && r.selected == -1 && r.hovered == c.hovered
  {
    c.(items := [], scroll := 0, selected := -1)
  }

  /** `clearItems`, corrected: the hovered index is reset with the list. */
  function ClearItems(c: Combo): (r: Combo)
    ensures r.items == [] && r.scroll == 0 && r.selected == -1 && r.hovered == -1
    ensures r == ClearItemsAsWritten(c).(hovered := -1)
  {
    ClearItemsAsWritten(c).(hovered := -1)
  }

  /**
   * `setSelectedIndex` as written: -1..n-1 accepted; an item index copies
   * the item into the text with the cursor at its end and reports the
   * change. The selection ends are left as they were.
   */
  function SetSelectedIndexAsWritten(c: Combo, index: int): (r: Combo)
    ensures !(-1 <= index < |c.items|) ==> r == c
    ensures index == -1 ==> r == c.(selected := -1)
    ensures 0 <= index < |c.items| ==>
      r.selected == index && r.line.text == c.items[index] && r.line.cursor == |c.items[index]| &&
      r.line.selStart == c.line.selStart && r.line.selEnd == c.line.selEnd &&
      r.changes == c.changes + (if c.hasChange then [c.items[index]] else [])
  {
    if -1 <= index < |c.items| then
      if index >= 0 then
        Changed(c.(selected := index, line := c.line.(text := c.items[index], cursor := |c.items[index]|)))
      else c.(selected := index)
    else c
  }

  /** `setSelectedIndex`, corrected: replacing the text also clears the selection. */
  function SetSelectedIndex(c: Combo, index: int): (r: Combo)
    requires Valid(c)
    ensures Valid(r)
    ensures !(-1 <= index < |c.items|) ==> r == c
    ensures index == -1 ==> r == c.(selected := -1)
    ensures 0 <= index < |c.items| ==>
      r.selected == index && r.line == FromText(c.items[index]) &&
      r.changes == c.changes + (if c.hasChange then [c.items[index]] else [])
  {
    var r := SetSelectedIndexAsWritten(c, index);
    if 0 <= index < |c.items| then r.(line := r.line.(selStart := -1, selEnd := -1)) else r
  }

  /** `setText` as written: the cursor is pulled back into the new text; the selection ends are kept. */
  function SetTextAsWritten(c: Combo, text: string): (r: Combo)
    ensures r.line == c.line.(text := text, cursor := Min(c.line.cursor, |text|))
    ensures r == c.(line := r.line)
  {
    c.(line := c.line.(text := text, cursor := Min(c.line.cursor, |text|)))
  }

  /** `setText`, corrected: the selection is cleared with the old text. */
  function SetText(c: Combo, text: string): (r: Combo)
    requires Valid(c)
    ensures Valid(r)
    ensures r.line == Line(text, Min(c.line.cursor, |text|), -1, -1)
    ensures r == c.(line := r.line)
  {
    var r := SetTextAsWritten(c, text);
    r.(line := r.line.(selStart := -1, selEnd := -1))
  }

  /** `getMenuHeight`: up to eight 25-pixel rows and a 1-pixel border above and below. */
  function MenuHeight(c: Combo): (h: int)
    ensures h == Min(|c.items|, MaxVisible) * ItemHeight + 2
    ensures 2 <= h <= MaxVisible * ItemHeight + 2
  {
    Min(|c.items|, MaxVisible) * ItemHeight + 2
  }

  /** The menu's rectangle: below the box, as wide as it. */
  predicate InMenu(c: Combo, absX: int, absY: int, mouseX: int, mouseY: int) {
    WidgetBase.InRect(mouseX, mouseY, absX, absY + c.height, c.width, MenuHeight(c))
  }

  /** `getItemAtPosition`: the item on the menu row under the mouse, or -1. */
  function ItemAt(c: Combo, absX: int, absY: int, mouseX: int, mouseY: int): (r: int)
    ensures -1 <= r < |c.items|
    ensures r >= 0 ==> InMenu(c, absX, absY, mouseX, mouseY)
    ensures |c.items| == 0 ==> r == -1
  {
    if |c.items| == 0 then -1
    else
      var menuY := absY + c.height;
      if !InMenu(c, absX, absY, mouseX, mouseY) then -1
      else
        var index := c.scroll + CDiv(mouseY - menuY - 1, ItemHeight);
        if 0 <= index < |c.items| then index else -1
  }

  /** `open`: hover the selected item and scroll it to the middle of the window. */
  function Open(c: Combo): (r: Combo)
    ensures r.open && r.hovered == c.selected
    ensures c.selected >= 0 ==> r.scroll == Max(0, c.selected - CDiv(MaxVisible, 2))
    ensures c.selected < 0 ==> r.scroll == c.scroll
    ensures r == c.(open := true, hovered := r.hovered, scroll := r.scroll)
  {
    var r := c.(open := true, hovered := c.selected);
    if r.hovered >= 0 then r.(scroll := Max(0, r.hovered - CDiv(MaxVisible, 2))) else r
  }

  /** `close`: the menu closes and nothing is hovered. */
  function Close(c: Combo): (r: Combo)
    ensures r == c.(open := false, hovered := -1)
  {
    c.(open := false, hovered := -1)
  }

  /** `toggle`: open as `open` does, or close leaving the hovered index as it was. */
  function Toggle(c: Combo): (r: Combo)
    ensures c.open ==> r == c.(open := false)
    ensures !c.open ==> r == Open(c)
  {
    if c.open then c.(open := false) else Open(c)
  }

  /** Choosing an item from the menu: select it, report it, close. */
  function Choose(c: Combo, i: int): (r: Combo)
    requires Valid(c) && 0 <= i < |c.items|
    ensures Valid(r)
    ensures r.selected == i && r.line == FromText(c.items[i]) && !r.open && r.hovered == -1
    ensures r.selections == c.selections + (if c.hasSelect then [(i, c.items[i])] else [])
    ensures r.items == c.items
  {
    var s := SetSelectedIndex(c, i);
    Close(s.(selections := s.selections + (if c.hasSelect then [(i, c.items[i])] else [])))
  }

  /** `handleChar`: a printable ASCII code replaces the selection at the cursor and is reported. */
  function HandleChar(c: Combo, code: int): (r: Combo)
    requires Valid(c)
    ensures Valid(r)
    ensures !c.focused || !(32 <= code <= 126) ==> r == c
    ensures c.focused && 32 <= code <= 126 ==>
      r.line == TypeChar(c.line, code as char) &&
      r.changes == c.changes + (if c.hasChange then [r.line.text] else []) &&
      r.selecting == c.selecting && r.items == c.items
  {
    if c.focused && 32 <= code <= 126 then Changed(c.(line := TypeChar(c.line, code as char))) else c
  }

  /** The keys that edit the text or move the cursor. */
  predicate IsEditKey(key: Key) {
    key.Left? || key.Right? || key.Home? || key.End? || key.Backspace? || key.Delete?
  }

  /**
   * The editing half of `handleKey`: cursor keys move the cursor (clearing
   * the selection when they move it); Backspace and Delete act as in the
   * text box but report a change even when nothing changed.
   */
  function EditKey(c: Combo, key: Key): (r: Combo)
    requires TextLine.Valid(c.line)
    ensures TextLine.Valid(r.line)
    ensures r == c.(line := r.line, changes := r.changes)
    ensures key.Left? ==> r.line == MoveLeft(c.line) && r.changes == c.changes
    ensures key.Right? ==> r.line == MoveRight(c.line) && r.changes == c.changes
    ensures key.Home? ==> r.line == MoveHome(c.line) && r.changes == c.changes
    ensures key.End? ==> r.line == MoveEnd(c.line) && r.changes == c.changes
    ensures key.Backspace? ==>
      r.line == TextLine.Backspace(c.line) &&
      r.changes == c.changes + (if c.hasChange then [r.line.text] else [])
    ensures key.Delete? ==>
      r.line == DeleteForward(c.line) &&
      r.changes == c.changes + (if c.hasChange then [r.line.text] else [])
    ensures !IsEditKey(key) ==> r == c
  {
    match key
    case Left => c.(line := MoveLeft(c.line))
    case Right => c.(line := MoveRight(c.line))
    case Home => c.(line := MoveHome(c.line))
    case End => c.(line := MoveEnd(c.line))
    case Backspace => Changed(c.(line := TextLine.Backspace(c.line)))
    case Delete => Changed(c.(line := DeleteForward(c.line)))
    case _ => c
  }

  /**
   * The menu half of `handleKey`, Enter aside: with the menu open, Down and
   * Up move the hovered item by one within the list and drag the scroll
   * window along; Escape closes an open menu.
   */
  function MenuKey(c: Combo, key: Key): (r: Combo)
    requires -1 <= c.hovered < |c.items|
    ensures -1 <= r.hovered < |r.items|
    ensures r == c.(open := r.open, hovered := r.hovered, scroll := r.scroll)
    ensures !c.open ==> r == c
    ensures c.open && key.Down? ==>
      r.open && r.hovered == (if c.hovered < |c.items| - 1 then c.hovered + 1 else c.hovered)
    ensures c.open && key.Up? ==> r.open && r.hovered == (if c.hovered > 0 then c.hovered - 1 else c.hovered)
    ensures c.open && key.Escape? ==> r == Close(c)
    ensures !(key.Down? || key.Up? || key.Escape?) ==> r == c
  {
    if !c.open then c
    else
      match key
      case Down =>
        if c.hovered < |c.items| - 1 then
          var h := c.hovered + 1;
          c.(hovered := h, scroll := if h >= c.scroll + MaxVisible then c.scroll + 1 else c.scroll)
        else c
      case Up =>
        if c.hovered > 0 then
          var h := c.hovered - 1;
          c.(hovered := h, scroll := if h < c.scroll then c.scroll - 1 else c.scroll)
        else c
      case Escape => Close(c)
      case _ => c
  }

  /** Enter as written: choose the hovered item through `setSelectedIndex`, report it, close. */
  function EnterAsWritten(c: Combo): (r: Combo)
    requires -1 <= c.hovered < |c.items|
    ensures !(c.open && c.hovered >= 0) ==> r == c
    ensures c.open && c.hovered >= 0 ==>
      r == Close(SetSelectedIndexAsWritten(c, c.hovered)).(selections :=
        c.selections + (if c.hasSelect then [(c.hovered, c.items[c.hovered])] else []))
  {
    if c.open && c.hovered >= 0 then
      var s := SetSelectedIndexAsWritten(c, c.hovered);
      Close(s.(selections := s.selections + (if c.hasSelect then [(c.hovered, c.items[c.hovered])] else [])))
    else c
  }

  /** `handleKey` as written: ignored unless focused and pressed; a mouse drag in progress is not ended. */
  function HandleKeyAsWritten(c: Combo, key: Key, pressed: bool): (r: Combo)
    requires TextLine.Valid(c.line) && -1 <= c.hovered < |c.items|
    ensures r.selecting == c.selecting && r.items == c.items
    ensures !pressed || !c.focused ==> r == c
    ensures pressed && c.focused && IsEditKey(key) ==> r == EditKey(c, key)
    ensures pressed && c.focused && key.Enter? ==> r == EnterAsWritten(c)
  {
    if !pressed || !c.focused then c
    else if IsEditKey(key) then EditKey(c, key)
    else if key.Enter? then EnterAsWritten(c)
    else MenuKey(c, key)
  }

  /** `handleKey`, corrected: any key ends a mouse drag first, as the text box does, and Enter clears the old selection. */
  function HandleKey(c: Combo, key: Key, pressed: bool): (r: Combo)
    requires Valid(c)
    ensures Valid(r)
    ensures !pressed || !c.focused ==> r == c
    ensures pressed && c.focused ==> !r.selecting && r.items == c.items
    ensures pressed && c.focused && IsEditKey(key) ==> r == EditKey(c.(selecting := false), key)
    ensures pressed && c.focused && key.Enter? && c.open && c.hovered >= 0 ==> r == Choose(c.(selecting := false), c.hovered)
    ensures pressed && c.focused && !IsEditKey(key) && !key.Enter? ==> r == MenuKey(c.(selecting := false), key)
  {
    if !pressed || !c.focused then c
    else
      var s := c.(selecting := false);
      if IsEditKey(key) then EditKey(s, key)
      else if key.Enter? then (if s.open && s.hovered >= 0 then Choose(s, s.hovered) else s)
      else MenuKey(s, key)
  }

  /**
   * `handleMouseButton`. A press on the button strip toggles the menu; a
   * press on a menu item chooses it; a press on the text anchors a
   * selection at `index` and starts a drag. A release ends the drag.
   */
  function MouseButton(c: Combo, absX: int, absY: int, mouseX: int, mouseY: int, index: int, pressed: bool): (r: Combo)
    requires Valid(c) && InText(c.line, index)
    ensures Valid(r)
    ensures !pressed ==> r == c.(selecting := false)
    ensures pressed && absX + c.width - ButtonWidth <= mouseX < absX + c.width ==> r == Toggle(c)
    ensures (pressed && !(absX + c.width - ButtonWidth <= mouseX < absX + c.width) && c.open &&
             ItemAt(c, absX, absY, mouseX, mouseY) >= 0) ==>
      r == Choose(c, ItemAt(c, absX, absY, mouseX, mouseY))
  {
    if pressed then
      if absX + c.width - ButtonWidth <= mouseX < absX + c.width then Toggle(c)
      else
        var i := if c.open then ItemAt(c, absX, absY, mouseX, mouseY) else -1;
        if i >= 0 then Choose(c, i)
        else if WidgetBase.InRect(mouseX, mouseY, absX, absY, c.width, c.height) then
          c.(line := Anchor(c.line, index), selecting := true)
        else c
    else c.(selecting := false)
  }

  /** Whether a mouse press lands on a menu row rather than on the button strip. */
  predicate PressChoosesItem(c: Combo, absX: int, absY: int, mouseX: int, mouseY: int, pressed: bool) {
    pressed && !(absX + c.width - ButtonWidth <= mouseX < absX + c.width) && c.open &&
    ItemAt(c, absX, absY, mouseX, mouseY) >= 0
  }

  /** Choosing an item from the menu as the source does it, through `setSelectedIndex` as written. */
  function ChooseAsWritten(c: Combo, i: int): (r: Combo)
    requires 0 <= i < |c.items|
    ensures r.selected == i && r.line.text == c.items[i] && r.line.cursor == |c.items[i]|
    ensures r.line.selStart == c.line.selStart && r.line.selEnd == c.line.selEnd
    ensures !r.open && r.hovered == -1 && r.items == c.items
    ensures r.selections == c.selections + (if c.hasSelect then [(i, c.items[i])] else [])
  {
    var s := SetSelectedIndexAsWritten(c, i);
    Close(s.(selections := s.selections + (if c.hasSelect then [(i, c.items[i])] else [])))
  }

  /** `handleMouseButton` as written: a menu choice goes through `ChooseAsWritten`. */
  function MouseButtonAsWritten(c: Combo, absX: int, absY: int, mouseX: int, mouseY: int, index: int, pressed: bool): (r: Combo)
    ensures !pressed ==> r == c.(selecting := false)
    ensures pressed && absX + c.width - ButtonWidth <= mouseX < absX + c.width ==> r == Toggle(c)
    ensures PressChoosesItem(c, absX, absY, mouseX, mouseY, pressed) ==>
      r == ChooseAsWritten(c, ItemAt(c, absX, absY, mouseX, mouseY))
  {
    if pressed then
      if absX + c.width - ButtonWidth <= mouseX < absX + c.width then Toggle(c)
      else
        var i := if c.open then ItemAt(c, absX, absY, mouseX, mouseY) else -1;
        if i >= 0 then ChooseAsWritten(c, i)
        else if WidgetBase.InRect(mouseX, mouseY, absX, absY, c.width, c.height) then
          c.(line := Anchor(c.line, index), selecting := true)
        else c
    else c.(selecting := false)
  }

  /** `handleMouseMove`: extend a drag with focus to `index`; with the menu open, hover the row under the mouse. */
  function MouseMove(c: Combo, absX: int, absY: int, mouseX: int, mouseY: int, index: int): (r: Combo)
    requires Valid(c) && InText(c.line, index)
    ensures Valid(r)
    ensures c.selecting && c.focused ==> r.line == DragTo(c.line, index)
    ensures !(c.selecting && c.focused) ==> r.line == c.line
    ensures c.open ==> r.hovered == ItemAt(c, absX, absY, mouseX, mouseY)
    ensures !c.open ==> r.hovered == c.hovered
  {
    var d := if c.selecting && c.focused then c.(line := DragTo(c.line, index)) else c;
    if c.open then d.(hovered := ItemAt(c, absX, absY, mouseX, mouseY)) else d
  }

  /** `setFocus`: losing focus drops the selection and ends a drag. */
  function SetFocus(c: Combo, focused: bool): (r: Combo)
    ensures focused ==> r == c.(focused := true)
    ensures !focused ==> r == c.(focused := false, selecting := false, line := c.line.(selStart := -1, selEnd := -1))
  {
    if focused then c.(focused := true)
    else c.(focused := false, selecting := false, line := c.line.(selStart := -1, selEnd := -1))
  }

  /** `selectAll`: even on empty text, where the two ends coincide and nothing is selected. */
  function SelectAll(c: Combo): (r: Combo)
    ensures r == c.(line := TextLine.SelectAll(c.line))
  {
    c.(line := TextLine.SelectAll(c.line))
  }

  /*
   * Lemmas.
   */

  /** A new combo box is valid. */
  lemma NewIsValid(width: int, height: int, hasChange: bool, hasSelect: bool)
    ensures Valid(New(width, height, hasChange, hasSelect))
  {
  }

  /** The list and focus operations keep the corrected invariant. */
  lemma ValidKept(c: Combo, item: string, f: bool)
    requires Valid(c)
    ensures Valid(AddItem(c, item)) && Valid(ClearItems(c)) && Valid(Open(c)) && Valid(Close(c)) && Valid(Toggle(c))
    ensures Valid(SetFocus(c, f)) && Valid(SelectAll(c))
  {
  }

  /** Hence the erase behind every typed character and Backspace never throws in the corrected model. */
  lemma EraseNeverThrows(c: Combo)
    requires Valid(c)
    ensures SubstrErase(c.line).Some?
  {
    SubstrEraseValid(c.line);
  }

  /** The hovered item lies in the scroll window [scroll, scroll + 8), or nothing is hovered. */
  predicate InWindow(c: Combo) {
    c.hovered == -1 || c.scroll <= c.hovered < c.scroll + MaxVisible
  }

  /** Opening on a selected item shows it in the window. */
  lemma OpenShowsSelection(c: Combo)
    requires c.selected >= 0
    ensures InWindow(Open(c))
  {
  }

  /**
   * Down and Up keep the hovered item in the window, move it by one when
   * not at the end of the list, and otherwise leave it.
   */
  lemma NavigationKeepsWindow(c: Combo, key: Key)
    requires Valid(c) && c.open && c.focused && (key.Down? || key.Up?)
    requires InWindow(c) && (c.hovered >= 0 || c.scroll == 0)
    ensures var r := HandleKey(c, key, true);
      InWindow(r) && r.open &&
      (key.Down? ==> r.hovered == (if c.hovered < |c.items| - 1 then c.hovered + 1 else c.hovered)) &&
      (key.Up? ==> r.hovered == (if c.hovered > 0 then c.hovered - 1 else c.hovered))
  {
  }

  /** Enter on a hovered item selects it, copies it into the text, reports it and closes the menu. */
  lemma EnterChoosesHovered(c: Combo)
    requires Valid(c) && c.open && c.focused && c.hovered >= 0
    ensures var r := HandleKey(c, Enter, true);
      r.selected == c.hovered && r.line.text == c.items[c.hovered] && !r.open && r.hovered == -1 &&
      r.selections == c.selections + (if c.hasSelect then [(c.hovered, c.items[c.hovered])] else [])
  {
  }

  /**
   * Hit-testing inverts the menu layout: below its top border, the mouse
   * is over item i exactly when it lies in row i - scroll.
   */
  lemma ItemAtIsRow(c: Combo, absX: int, absY: int, mouseX: int, mouseY: int, i: int)
    requires InMenu(c, absX, absY, mouseX, mouseY) && mouseY >= absY + c.height + 1
    requires 0 <= c.scroll <= i < |c.items|
    ensures ItemAt(c, absX, absY, mouseX, mouseY) == i <==>
      absY + c.height + 1 + (i - c.scroll) * ItemHeight <= mouseY < absY + c.height + 1 + (i - c.scroll + 1) * ItemHeight
  {
    DivBand(mouseY - (absY + c.height) - 1, ItemHeight, i - c.scroll);
  }

  /** The top border row is hit-tested as the first visible row (C++ division truncates -1/25 to 0). */
  lemma BorderRowIsFirst(c: Combo, absX: int, absY: int, mouseX: int)
    requires InMenu(c, absX, absY, mouseX, absY + c.height) && 0 <= c.scroll < |c.items|
    ensures ItemAt(c, absX, absY, mouseX, absY + c.height) == c.scroll
  {
  }

  /*
   * The three defects, as written.
   */

  /**
   * Choosing an item whose text is shorter than a selection made in the
   * old text keeps that selection: the next typed character's erase
   * throws `std::out_of_range`.
   */
  lemma StaleSelectionThrows()
    ensures var c := Combo(100, 25, ["hello", "hi"], Line("hello", 5, 0, 5), true, true, false, -1, 0, 0,
                           false, false, [], []);
      Valid(c) &&
      var r := SetSelectedIndexAsWritten(c, 1);
      HasSelection(r.line) && !TextLine.Valid(r.line) && SubstrErase(r.line).None? &&
      SubstrErase(SetTextAsWritten(c, "hi").line).None?
  {
  }

  /**
   * Backspace during a mouse drag that started at the end of the text
   * leaves the anchor past the end; the next mouse move opens a selection
   * whose erase throws.
   */
  lemma DragAnchorOverrun()
    ensures var c := Combo(100, 25, [], Line("ab", 2, 2, 2), false, true, true, -1, -1, 0,
                           false, false, [], []);
      Valid(c) &&
      var k := HandleKeyAsWritten(c, Backspace, true);
      k.selecting && !Anchored(k.line) &&
      SubstrErase(DragTo(k.line, 0)).None?
  {
  }

  /**
   * Clearing the list while an item is hovered keeps the hovered index:
   * Enter then passes the test `hovered >= 0` and reads `items[hovered]`
   * from an empty list.
   */
  lemma ClearKeepsHovered()
    ensures var c := Combo(100, 25, ["a", "b"], Line("", 0, -1, -1), true, true, false, 1, -1, 0,
                           false, true, [], []);
      Valid(c) &&
      var r := ClearItemsAsWritten(c);
      r.open && r.hovered >= 0 && !(r.hovered < |r.items|)
  {
  }

  /**
   * The corrected key handler differs from the source's only in ending the
   * drag first and, on Enter, in clearing the old selection ends.
   */
  lemma HandleKeyCorrection(c: Combo, key: Key)
    requires Valid(c) && c.focused
    ensures !key.Enter? ==> HandleKey(c, key, true) == HandleKeyAsWritten(c.(selecting := false), key, true)
    ensures key.Enter? && c.open && c.hovered >= 0 ==>
      var w := HandleKeyAsWritten(c.(selecting := false), key, true);
      HandleKey(c, key, true) == w.(line := w.line.(selStart := -1, selEnd := -1))
  {
  }

  /** The corrected members keep the invariant that each of the three defects breaks. */
  lemma CorrectionsKeepValid(c: Combo, index: int, text: string, key: Key, pressed: bool)
    requires Valid(c)
    ensures Valid(SetSelectedIndex(c, index)) && Valid(SetText(c, text))
    ensures Valid(HandleKey(c, key, pressed)) && Valid(ClearItems(c))
  {
  }

  /**
   * Choosing a shorter item from the menu with the mouse, while a
   * selection is made in the old text, keeps that selection: the next
   * typed character's erase throws.
   */
  lemma MenuChoiceKeepsSelection()
    ensures var c := Combo(100, 25, ["hello", "hi"], Line("hello", 5, 0, 5), true, true, false, -1, 0, 0,
                           false, false, [], []);
      Valid(c) && PressChoosesItem(c, 0, 0, 10, 60, true) &&
      var r := MouseButtonAsWritten(c, 0, 0, 10, 60, 0, true);
      r.selected == 1 && HasSelection(r.line) && !TextLine.Valid(r.line) && SubstrErase(r.line).None?
  {
    var c := Combo(100, 25, ["hello", "hi"], Line("hello", 5, 0, 5), true, true, false, -1, 0, 0,
                   false, false, [], []);
    assert ItemAt(c, 0, 0, 10, 60) == 1;
  }

  /**
   * The corrected mouse handler differs from the source's only on a menu
   * choice, where it also clears the old selection ends.
   */
  lemma MouseButtonCorrection(c: Combo, absX: int, absY: int, mouseX: int, mouseY: int, index: int, pressed: bool)
    requires Valid(c) && InText(c.line, index)
    ensures var a := MouseButtonAsWritten(c, absX, absY, mouseX, mouseY, index, pressed);
      var m := MouseButton(c, absX, absY, mouseX, mouseY, index, pressed);
      (PressChoosesItem(c, absX, absY, mouseX, mouseY, pressed) ==> m == a.(line := a.line.(selStart := -1, selEnd := -1))) &&
      (!PressChoosesItem(c, absX, absY, mouseX, mouseY, pressed) ==> m == a)
  {
  }
}
