/**
  The drawer controller of the settings layout: a closed/open state that starts
  closed and a single toggle handler that ignores focus-navigation key presses.
*/
module DrawerControl {

  datatype Drawer = Closed | Open
  {
    function Flip(): (d: Drawer)
      ensures d != this
    {
      match this
      case Closed => Open
      case Open => Closed
    }
  }

  /** The state the layout mounts with. */
  const Initial: Drawer := Closed

  /**
    The native browser event behind a toggle request: a keyboard event with its
    `type` and `key`, a mouse (click) event, or any other event kind.
  */
  datatype NativeEvent =
    | KeyboardEvent(eventType: string, key: string)
    | MouseEvent
    | OtherEvent

  /** A key-down of Tab or Shift: a focus-navigation key press the toggle ignores. */
  function IsFocusNavigationKey(e: NativeEvent): (b: bool)
    ensures b ==> e.KeyboardEvent?
    ensures e.KeyboardEvent? && e.eventType != "keydown" ==> !b
  {
    e.KeyboardEvent? && e.eventType == "keydown" && (e.key == "Tab" || e.key == "Shift")
  }

  /** The toggle handler: a no-op for focus-navigation keys, otherwise a flip. */
  function Toggle(d: Drawer, e: NativeEvent): (d': Drawer)
    ensures d' == d <==> IsFocusNavigationKey(e)
    ensures d' != d ==> d' == d.Flip()
  {
    if IsFocusNavigationKey(e) then d else d.Flip()
  }

  /** Number of events in `es` that the toggle handler acts on. */
  function Effective(es: seq<NativeEvent>): (n: nat)
    ensures n <= |es|
  {
    if |es| == 0 then 0
    else Effective(es[..|es| - 1]) + (if IsFocusNavigationKey(es[|es| - 1]) then 0 else 1)
  }

  /**
    The state after handling `es` in order, starting from `d`; a run made only of
    focus-navigation key presses changes nothing.
  */
  function Replay(d: Drawer, es: seq<NativeEvent>): (r: Drawer)
    ensures (forall i :: 0 <= i < |es| ==> IsFocusNavigationKey(es[i])) ==> r == d
  {
    if |es| == 0 then d else Toggle(Replay(d, es[..|es| - 1]), es[|es| - 1])
  }

  /** The state `d` flipped `n` times. */
  function FlipTimes(d: Drawer, n: nat): Drawer
  {
    if n % 2 == 0 then d else d.Flip()
  }

  /** Replaying a sequence of events flips the state once per effective event. */
  lemma {:induction false} ReplayParity(d: Drawer, es: seq<NativeEvent>)
    ensures Replay(d, es) == FlipTimes(d, Effective(es))
  {
    if |es| > 0 {
      ReplayParity(d, es[..|es| - 1]);
    }
  }

  /** Handles the events one by one, as the browser delivers them. */
  method HandleEvents(d: Drawer, es: seq<NativeEvent>) returns (r: Drawer)
    ensures r == FlipTimes(d, Effective(es))
  {
    r := d;
    var i := 0;
    while i < |es|
      invariant 0 <= i <= |es|
      invariant r == FlipTimes(d, Effective(es[..i]))
    {
      assert es[..i + 1][..i] == es[..i];
      r := Toggle(r, es[i]);
      i := i + 1;
    }
    assert es[..|es|] == es;
  }

  /** Two consecutive effective toggles restore the original state. */
  lemma DoubleToggleRestores(d: Drawer, e1: NativeEvent, e2: NativeEvent)
    requires !IsFocusNavigationKey(e1) && !IsFocusNavigationKey(e2)
    ensures Toggle(Toggle(d, e1), e2) == d
  {
  }

  /** Only a key-down of Tab or Shift is filtered: a key-up of them, or a key-down of any other key, flips. */
  lemma FilterIsExact(d: Drawer, eventType: string, key: string)
    ensures Toggle(d, KeyboardEvent(eventType, key)) == d <==>
            eventType == "keydown" && (key == "Tab" || key == "Shift")
  {
  }

  /** Both states are reachable from the initial one, and a mouse event always opens a closed drawer. */
  lemma OpenReachable()
    ensures Initial == Closed
    ensures Replay(Initial, [MouseEvent]) == Open
    ensures Replay(Initial, [MouseEvent, MouseEvent]) == Closed
  {
  }
}
