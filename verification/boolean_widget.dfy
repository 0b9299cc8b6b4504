/**
 * The checked/unchecked state shared by check boxes and radio buttons.
 * The change callback is not run: each notification it would receive is
 * appended to `notified`, and only when a callback is installed.
 */
module BooleanWidget {

  datatype Switch = Switch(checked: bool, hasCallback: bool, notified: seq<bool>)

  /** The constructor: unchecked, nothing notified yet. */
  function New(hasCallback: bool): (s: Switch)
    ensures !s.checked && s.notified == [] && s.hasCallback == hasCallback
  {
    Switch(false, hasCallback, [])
  }

  /** `notifyChange`: the callback, if any, receives the current state. */
  function Notify(s: Switch): (r: Switch)
    ensures r.checked == s.checked && r.hasCallback == s.hasCallback
    ensures s.hasCallback ==> r.notified == s.notified + [s.checked]
    ensures !s.hasCallback ==> r.notified == s.notified
  {
    if s.hasCallback then s.(notified := s.notified + [s.checked]) else s
  }

  /** `toggle`: negate and always notify. */
  function Toggle(s: Switch): (r: Switch)
    ensures r.checked == !s.checked && r.hasCallback == s.hasCallback
    ensures s.hasCallback ==> r.notified == s.notified + [!s.checked]
    ensures !s.hasCallback ==> r.notified == s.notified
  {
    Notify(s.(checked := !s.checked))
  }

  /** `setChecked`: change and notify only when the value differs. */
  function SetChecked(s: Switch, checked: bool): (r: Switch)
    ensures r.checked == checked && r.hasCallback == s.hasCallback
    ensures s.checked == checked ==> r == s
    ensures s.checked != checked && s.hasCallback ==> r.notified == s.notified + [checked]
    ensures s.checked != checked && !s.hasCallback ==> r.notified == s.notified
  {
    if s.checked != checked then Notify(s.(checked := checked)) else s
  }

  /** With a callback installed, the last notification, if any, reports the current state. */
  predicate LastReportIsCurrent(s: Switch) {
    s.hasCallback && |s.notified| > 0 ==> s.notified[|s.notified| - 1] == s.checked
  }

  /** Both state changes keep the last report in step with the state. */
  lemma ReportsFollowState(s: Switch, c: bool)
    requires LastReportIsCurrent(s)
    ensures LastReportIsCurrent(Toggle(s))
    ensures LastReportIsCurrent(SetChecked(s, c))
  {
  }

  /** Toggling twice restores the state and notifies twice. */
  lemma ToggleTwice(s: Switch)
    ensures Toggle(Toggle(s)).checked == s.checked
    ensures s.hasCallback ==> Toggle(Toggle(s)).notified == s.notified + [!s.checked, s.checked]
  {
  }

  /** Setting the same value twice notifies at most once. */
  lemma SetCheckedIdempotent(s: Switch, c: bool)
    ensures SetChecked(SetChecked(s, c), c) == SetChecked(s, c)
  {
  }
}
