/**
 * The status bar: a strip across the bottom of the window split into
 * labelled sections of fixed widths, laid out left to right inside the
 * bar's panel. Colours are packed 32-bit values.
 */
module StatusBar {
  import opened Common
  import opened WidgetBase

  const DefaultHeight: int := 25
  /** The first section's left edge, inside the panel. */
  const FirstX: int := 5
  /** Every section's top edge, inside the panel. */
  const SectionTop: int := 3
  /** The space between two sections. */
  const SectionGap: int := 10
  /** A text label's default colour, black packed as red, green and blue bytes. */
  const Black: int := 0

  /** A section's text label: its text, its colour, and its frame in the panel. */
  datatype Section = Section(text: string, color: int, frame: Frame)

  datatype Bar = Bar(frame: Frame, panel: Frame, sections: seq<Section>, widths: seq<int>)

  /** Each section's width list entry exists. */
  predicate Valid(b: Bar) {
    |b.sections| == |b.widths|
  }

  /** The horizontal room each section takes: its width and the gap after it. */
  function Room(ws: seq<int>): (r: seq<int>)
    ensures |r| == |ws| && forall k :: 0 <= k < |ws| ==> r[k] == ws[k] + SectionGap
  {
    seq(|ws|, k requires 0 <= k < |ws| => ws[k] + SectionGap)
  }

  /** The frame section `k` has once laid out in a bar of height `height`. */
  function SlotOf(ws: seq<int>, height: int, k: int): (f: Frame)
    requires 0 <= k < |ws|
    ensures f.y == SectionTop && f.width == ws[k] && f.height == height - 2 * SectionTop
  {
    Frame(FirstX + Sum(Room(ws)[..k]), SectionTop, ws[k], height - 2 * SectionTop)
  }

  /** Every section in its slot. */
  predicate LaidOut(b: Bar) {
    Valid(b) && forall k :: 0 <= k < |b.sections| ==> b.sections[k].frame == SlotOf(b.widths, b.frame.height, k)
  }

  /** The constructor: at the origin, no width yet, the given height, no sections. */
  function New(height: int): (b: Bar)
    ensures LaidOut(b) && b.sections == []
    ensures b.frame == Frame(0, 0, 0, height) && b.panel == b.frame
  {
    Bar(Frame(0, 0, 0, height), Frame(0, 0, 0, height), [], [])
  }

  /** The loop of `updateSectionPositions`, from left edge `x` on. */
  function Place(ss: seq<Section>, ws: seq<int>, height: int, x: int): (r: seq<Section>)
    requires |ss| == |ws|
    ensures |r| == |ss|
    decreases |ss|
  {
    if |ss| == 0 then []
    else
      var f := SetSize(SetPosition(ss[0].frame, x, SectionTop), ws[0], height - 2 * SectionTop);
      [ss[0].(frame := f)] + Place(ss[1..], ws[1..], height, x + ws[0] + SectionGap)
  }

  /** `updateSectionPositions`. */
  function Update(b: Bar): (r: Bar)
    requires Valid(b)
    ensures LaidOut(r)
    ensures r.frame == b.frame && r.panel == b.panel && r.widths == b.widths && |r.sections| == |b.sections|
    ensures forall k :: 0 <= k < |b.sections| ==> r.sections[k].text == b.sections[k].text && r.sections[k].color == b.sections[k].color
  {
    var r := b.(sections := Place(b.sections, b.widths, b.frame.height, FirstX));
    PlaceSlots(b.sections, b.widths, b.frame.height);
    PlaceKeeps(b.sections, b.widths, b.frame.height, FirstX);
    r
  }

  /** `addSection`: a new empty black label, then everything laid out again. */
  function AddSection(b: Bar, width: int): (r: Bar)
    requires Valid(b)
    ensures LaidOut(r)
    ensures r.frame == b.frame && r.panel == b.panel && r.widths == b.widths + [width]
    ensures |r.sections| == |b.sections| + 1
    ensures forall k :: 0 <= k < |b.sections| ==> r.sections[k].text == b.sections[k].text && r.sections[k].color == b.sections[k].color
    ensures r.sections[|b.sections|].text == "" && r.sections[|b.sections|].color == Black
  {
    Update(b.(sections := b.sections + [Section("", Black, Frame(0, SectionTop, 0, 0))], widths := b.widths + [width]))
  }

  /** `setSection`: an index out of range is ignored. */
  function SetSection(b: Bar, index: int, text: string): (r: Bar)
    ensures r.frame == b.frame && r.panel == b.panel && r.widths == b.widths && |r.sections| == |b.sections|
    ensures !(0 <= index < |b.sections|) ==> r == b
    ensures 0 <= index < |b.sections| ==> r.sections[index].text == text
    ensures forall k :: 0 <= k < |b.sections| ==>
      r.sections[k].color == b.sections[k].color && r.sections[k].frame == b.sections[k].frame &&
      (k != index ==> r.sections[k] == b.sections[k])
  {
    if 0 <= index < |b.sections| then b.(sections := b.sections[index := b.sections[index].(text := text)])
    else b
  }

  /** `setSectionColor`: an index out of range is ignored. */
  function SetSectionColor(b: Bar, index: int, color: int): (r: Bar)
    ensures r.frame == b.frame && r.panel == b.panel && r.widths == b.widths && |r.sections| == |b.sections|
    ensures !(0 <= index < |b.sections|) ==> r == b
    ensures 0 <= index < |b.sections| ==> r.sections[index].color == color
    ensures forall k :: 0 <= k < |b.sections| ==>
      r.sections[k].text == b.sections[k].text && r.sections[k].frame == b.sections[k].frame &&
      (k != index ==> r.sections[k] == b.sections[k])
  {
    if 0 <= index < |b.sections| then b.(sections := b.sections[index := b.sections[index].(color := color)])
    else b
  }

  /** `onWindowResize`: the window's width, its bottom edge, and the sections laid out again. */
  function Resize(b: Bar, windowWidth: int, windowHeight: int): (r: Bar)
    requires Valid(b)
    ensures LaidOut(r)
    ensures r.frame == Frame(b.frame.x, windowHeight - b.frame.height, windowWidth, b.frame.height)
    ensures r.panel == SetSize(b.panel, windowWidth, b.frame.height)
    ensures r.widths == b.widths && |r.sections| == |b.sections|
    ensures forall k :: 0 <= k < |b.sections| ==> r.sections[k].text == b.sections[k].text && r.sections[k].color == b.sections[k].color
  {
    Update(b.(frame := b.frame.(width := windowWidth, y := windowHeight - b.frame.height), panel := SetSize(b.panel, windowWidth, b.frame.height)))
  }

  /*
   * Lemmas.
   */

  /** The layout loop from `x` puts section `k` at `x` plus the room of the sections before it. */
  lemma PlacePositions(ss: seq<Section>, ws: seq<int>, height: int, x: int)
    requires |ss| == |ws|
    ensures forall k :: 0 <= k < |ss| ==> Place(ss, ws, height, x)[k].frame.x == x + Sum(Room(ws)[..k])
  {
    forall k | 0 <= k < |ss|
      ensures Place(ss, ws, height, x)[k].frame.x == x + Sum(Room(ws)[..k])
    {
      PlaceAt(ss, ws, height, x, k);
    }
  }

  /** One section of the above, by induction on its index. */
  lemma {:induction false} PlaceAt(ss: seq<Section>, ws: seq<int>, height: int, x: int, k: int)
    requires |ss| == |ws| && 0 <= k < |ss|
    ensures Place(ss, ws, height, x)[k].frame.x == x + Sum(Room(ws)[..k])
    decreases k
  {
    if k == 0 {
      assert Room(ws)[..0] == [];
    } else {
      PlaceLater(ss, ws, height, x, k);
      PlaceAt(ss[1..], ws[1..], height, x + ws[0] + SectionGap, k - 1);
      RoomBefore(ws, k);
    }
  }

  /** The loop keeps every section's text and colour and gives it its width, the bar's height less the margins, and the top edge. */
  lemma {:induction false} PlaceKeeps(ss: seq<Section>, ws: seq<int>, height: int, x: int)
    requires |ss| == |ws|
    ensures forall k :: 0 <= k < |ss| ==>
      var r := Place(ss, ws, height, x);
      r[k].text == ss[k].text && r[k].color == ss[k].color &&
      r[k].frame.y == SectionTop && r[k].frame.width == ws[k] && r[k].frame.height == height - 2 * SectionTop
    decreases |ss|
  {
    if |ss| > 0 {
      PlaceKeeps(ss[1..], ws[1..], height, x + ws[0] + SectionGap);
      forall k | 0 < k < |ss|
        ensures Place(ss, ws, height, x)[k] == Place(ss[1..], ws[1..], height, x + ws[0] + SectionGap)[k - 1]
      {
        PlaceLater(ss, ws, height, x, k);
      }
    }
  }

  /** Past the first section, the loop from `x` goes on as the loop over the rest from the next left edge. */
  lemma PlaceLater(ss: seq<Section>, ws: seq<int>, height: int, x: int, k: int)
    requires |ss| == |ws| && 0 < k < |ss|
    ensures Place(ss, ws, height, x)[k] == Place(ss[1..], ws[1..], height, x + ws[0] + SectionGap)[k - 1]
  {
  }

  /** The room before section `k` is the first section's room and the room of the rest before it. */
  lemma RoomBefore(ws: seq<int>, k: int)
    requires 0 < k <= |ws|
    ensures Sum(Room(ws)[..k]) == ws[0] + SectionGap + Sum(Room(ws[1..])[..k - 1])
  {
    assert Room(ws)[..k] == [ws[0] + SectionGap] + Room(ws[1..])[..k - 1];
    SumCons(ws[0] + SectionGap, Room(ws[1..])[..k - 1]);
  }

  /** From the first left edge, the loop puts every section in its slot. */
  lemma PlaceSlots(ss: seq<Section>, ws: seq<int>, height: int)
    requires |ss| == |ws|
    ensures forall k :: 0 <= k < |ss| ==> Place(ss, ws, height, FirstX)[k].frame == SlotOf(ws, height, k)
  {
    PlacePositions(ss, ws, height, FirstX);
    PlaceKeeps(ss, ws, height, FirstX);
  }

  /** Laid out, each section starts its width and a gap after the previous one starts. */
  lemma SlotsAdjacent(b: Bar, k: int)
    requires LaidOut(b) && 0 <= k && k + 1 < |b.sections|
    ensures b.sections[k + 1].frame.x == b.sections[k].frame.x + b.widths[k] + SectionGap
  {
    var room := Room(b.widths);
    assert room[..k + 1][..k] == room[..k];
  }

  /** Laid out with widths that are not negative, sections left of one another do not overlap. */
  lemma {:induction false} SlotsDisjoint(b: Bar, i: int, j: int)
    requires LaidOut(b) && 0 <= i < j < |b.sections|
    requires forall k :: 0 <= k < |b.widths| ==> b.widths[k] >= 0
    ensures b.sections[i].frame.x + b.sections[i].frame.width + SectionGap <= b.sections[j].frame.x
    decreases j - i
  {
    SlotsAdjacent(b, j - 1);
    if i < j - 1 {
      SlotsDisjoint(b, i, j - 1);
    }
  }

  /** Setting a section's text and then its colour is setting them the other way round. */
  lemma SettersCommute(b: Bar, i: int, text: string, j: int, color: int)
    ensures SetSectionColor(SetSection(b, i, text), j, color) == SetSection(SetSectionColor(b, j, color), i, text)
  {
  }

  /** Setting a text or a colour keeps a laid-out bar laid out. */
  lemma SettersKeepLayout(b: Bar, index: int, text: string, color: int)
    requires LaidOut(b)
    ensures LaidOut(SetSection(b, index, text)) && LaidOut(SetSectionColor(b, index, color))
  {
  }

  /** On a laid-out bar, laying out again changes nothing. */
  lemma UpdateIdempotent(b: Bar)
    requires LaidOut(b)
    ensures Update(b) == b
  {
    var r := Update(b);
    forall k | 0 <= k < |b.sections|
      ensures r.sections[k] == b.sections[k]
    {
      assert r.sections[k].frame == b.sections[k].frame;
    }
  }
}
