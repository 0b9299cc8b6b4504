/**
 * Radio buttons and their groups. All buttons of a program live in one
 * sequence; a button's group, when it has one, is a list of indices into
 * that sequence (the source's vector of pointers, which may or may not
 * contain the button itself).
 */
module RadioButton {
  import opened Common
  import opened BooleanWidget

  datatype Radio = Radio(sw: Switch, circleSize: int, height: int)

  /** The three-argument constructor: a 16-pixel circle in a 20-pixel-high widget. */
  function New(hasCallback: bool): (r: Radio)
    ensures !r.sw.checked && r.circleSize == 16 && r.height == 20
  {
    Radio(BooleanWidget.New(hasCallback), 16, 20)
  }

  /** The four-argument constructor: the widget is as high as the circle. */
  function NewSized(hasCallback: bool, circleSize: int): (r: Radio)
    ensures !r.sw.checked && r.circleSize == r.height == circleSize
  {
    Radio(BooleanWidget.New(hasCallback), circleSize, circleSize)
  }

  /** `setCircleSize` also sets the height. */
  function SetCircleSize(r: Radio, size: int): (q: Radio)
    ensures q.circleSize == size && q.height == size && q.sw == r.sw
  {
    r.(circleSize := size, height := size)
  }

  predicate ValidGroup(bs: seq<Radio>, group: seq<nat>) {
    forall k :: 0 <= k < |group| ==> group[k] < |bs|
  }

  /** The loop of `toggle`: `setChecked(false)` on every group member other than `me`, in order. */
  function UncheckOthers(bs: seq<Radio>, group: seq<nat>, me: nat): (r: seq<Radio>)
    requires ValidGroup(bs, group)
    ensures |r| == |bs|
    ensures forall i :: 0 <= i < |bs| && (i == me || i !in group) ==> r[i] == bs[i]
    ensures forall i :: 0 <= i < |bs| && i != me && i in group ==> !r[i].sw.checked
    ensures forall i :: 0 <= i < |bs| ==> r[i].circleSize == bs[i].circleSize && r[i].height == bs[i].height
    ensures forall i :: 0 <= i < |bs| && !bs[i].sw.checked ==> r[i] == bs[i]
    decreases |group|
  {
    if |group| == 0 then bs
    else
      var g := group[0];
      var bs1 := if g != me then bs[g := bs[g].(sw := SetChecked(bs[g].sw, false))] else bs;
      UncheckOthers(bs1, group[1..], me)
  }

  /** `toggle` on button `me`. */
  function Toggle(bs: seq<Radio>, me: nat, group: Option<seq<nat>>): (r: seq<Radio>)
    requires me < |bs|
    requires group.Some? ==> ValidGroup(bs, group.value)
    ensures |r| == |bs|
    ensures bs[me].sw.checked ==> r == bs
    ensures r[me].sw.checked
  {
    if bs[me].sw.checked then bs
    else
      var others := if group.Some? then UncheckOthers(bs, group.value, me) else bs;
      others[me := others[me].(sw := Notify(others[me].sw.(checked := true)))]
  }

  /** No two members of the group are checked. */
  predicate AtMostOneChecked(bs: seq<Radio>, group: seq<nat>)
    requires ValidGroup(bs, group)
  {
    forall k, l :: (0 <= k < |group| && 0 <= l < |group| &&
      bs[group[k]].sw.checked && bs[group[l]].sw.checked) ==> group[k] == group[l]
  }

  /*
   * Lemmas.
   */

  /** Toggling an unchecked button makes it the only checked member of its group. */
  lemma {:induction false} ExclusiveAfterToggle(bs: seq<Radio>, me: nat, group: seq<nat>)
    requires me < |bs| && ValidGroup(bs, group) && !bs[me].sw.checked
    ensures forall i :: 0 <= i < |bs| && (i == me || i in group) ==>
      (Toggle(bs, me, Some(group))[i].sw.checked <==> i == me)
  {
    var r := Toggle(bs, me, Some(group));
    var others := UncheckOthers(bs, group, me);
    forall i | 0 <= i < |bs| && (i == me || i in group)
      ensures r[i].sw.checked <==> i == me
    {
      if i != me {
        assert r[i] == others[i];
      }
    }
  }

  /** A group holding `me` in which at most one button is checked keeps that property. */
  lemma {:induction false} ToggleKeepsAtMostOne(bs: seq<Radio>, me: nat, group: seq<nat>)
    requires me < |bs| && ValidGroup(bs, group) && me in group
    requires AtMostOneChecked(bs, group)
    ensures ValidGroup(Toggle(bs, me, Some(group)), group)
    ensures AtMostOneChecked(Toggle(bs, me, Some(group)), group)
  {
    if !bs[me].sw.checked {
      ExclusiveAfterToggle(bs, me, group);
    }
  }

  /** Buttons outside the group are untouched; `me` is notified once, with `true`. */
  lemma {:induction false} ToggleFrame(bs: seq<Radio>, me: nat, group: Option<seq<nat>>)
    requires me < |bs| && (group.Some? ==> ValidGroup(bs, group.value)) && !bs[me].sw.checked
    ensures forall i :: 0 <= i < |bs| && i != me && (group.None? || i !in group.value) ==>
      Toggle(bs, me, group)[i] == bs[i]
    ensures Toggle(bs, me, group)[me].sw.notified ==
      bs[me].sw.notified + (if bs[me].sw.hasCallback then [true] else [])
  {
    if group.Some? {
      var others := UncheckOthers(bs, group.value, me);
      assert others[me] == bs[me];
    }
  }

  /** A group member that was checked is notified of `false`; one that was not is untouched. */
  lemma {:induction false} OthersNotified(bs: seq<Radio>, me: nat, group: seq<nat>, i: nat)
    requires me < |bs| && ValidGroup(bs, group) && !bs[me].sw.checked
    requires i < |bs| && i != me && i in group
    ensures !bs[i].sw.checked ==> Toggle(bs, me, Some(group))[i] == bs[i]
    ensures bs[i].sw.checked && bs[i].sw.hasCallback ==>
      Toggle(bs, me, Some(group))[i].sw.notified == bs[i].sw.notified + [false]
  {
    if bs[i].sw.checked {
      UncheckFirst(bs, group, me, i);
    }
  }

  /** The first `setChecked(false)` on a checked member notifies it; later ones do nothing. */
  lemma {:induction false} UncheckFirst(bs: seq<Radio>, group: seq<nat>, me: nat, i: nat)
    requires ValidGroup(bs, group) && i < |bs| && i != me && i in group && bs[i].sw.checked
    ensures UncheckOthers(bs, group, me)[i].sw.notified ==
      bs[i].sw.notified + (if bs[i].sw.hasCallback then [false] else [])
    decreases |group|
  {
    var g := group[0];
    var bs1 := if g != me then bs[g := bs[g].(sw := SetChecked(bs[g].sw, false))] else bs;
    if g == i {
      assert bs1[i].sw.notified == bs[i].sw.notified + (if bs[i].sw.hasCallback then [false] else []);
      assert !bs1[i].sw.checked;
    } else {
      assert i in group[1..];
      UncheckFirst(bs1, group[1..], me, i);
    }
  }
}
