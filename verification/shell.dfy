/**
  The settings shell: wires the menu button, the drawer's open/close requests,
  clicks in the drawer body and clicks on navigation rows to the drawer
  controller and the navigate-to-path primitive.
*/
module SettingsShell {
  import opened Optional
  import opened DrawerControl
  import opened ActiveItem
  import opened NavCatalog

  const DefaultDrawerWidth: int := 240

  /** The drawer width: the supplied number, or the default when `undefined`; 0 is kept. */
  function DrawerWidth(drawerWidth: Option<int>): (w: int)
    ensures drawerWidth.Some? ==> w == drawerWidth.value
    ensures w == DefaultDrawerWidth <==> drawerWidth.None? || drawerWidth.value == DefaultDrawerWidth
  {
    drawerWidth.GetOr(DefaultDrawerWidth)
  }

  /** Outcome of one user gesture: the new drawer state and the path navigated to, if any. */
  datatype Step = Step(drawer: Drawer, navigation: Option<string>)

  /**
    A click on a row. The row's own handler navigates unless the row is selected;
    the click then bubbles to the drawer body, whose handler is the drawer toggle.
  */
  function ClickRow(d: Drawer, location: string, item: NavItem, e: NativeEvent): (s: Step)
    ensures s.navigation == None <==> IsSelected(location, item.pathname)
    ensures s.navigation.Some? ==> s.navigation.value == item.pathname
    ensures s.drawer == Toggle(d, e)
  {
    var navigation := if IsSelected(location, item.pathname) then None else Some(item.pathname);
    Step(Toggle(d, e), navigation)
  }

  /** A click on a row closes an open drawer; it navigates to the row's path exactly when the row is not selected. */
  lemma ClickClosesAndNavigates(location: string, item: NavItem)
    ensures ClickRow(Open, location, item, MouseEvent).drawer == Closed
    ensures !IsSelected(location, item.pathname) ==>
              ClickRow(Open, location, item, MouseEvent).navigation == Some(item.pathname)
    ensures IsSelected(location, item.pathname) ==>
              ClickRow(Open, location, item, MouseEvent).navigation == None
  {
  }

  /** A user gesture on the shell, with the native event that carried it. */
  datatype Gesture =
    | MenuButton(e: NativeEvent)
    | DrawerOpenRequest(e: NativeEvent)
    | DrawerCloseRequest(e: NativeEvent)
    | DrawerBodyClick(e: NativeEvent)
    | RowClick(index: nat, e: NativeEvent)

  /** A gesture together with the location the page is at when it happens. */
  datatype Interaction = Interaction(location: string, gesture: Gesture)

  /** Row clicks name a rendered row. */
  predicate ValidGesture(items: seq<NavItem>, g: Gesture)
  {
    g.RowClick? ==> g.index < |items|
  }

  /** Handles one gesture: every gesture reaches the drawer toggle, and only a row click may navigate. */
  function Handle(d: Drawer, items: seq<NavItem>, x: Interaction): (s: Step)
    requires ValidGesture(items, x.gesture)
    ensures s.drawer == Toggle(d, x.gesture.e)
    ensures s.navigation.Some? ==>
              x.gesture.RowClick? && s.navigation.value == items[x.gesture.index].pathname &&
              !IsSelected(x.location, items[x.gesture.index].pathname)
    ensures x.gesture.RowClick? && !IsSelected(x.location, items[x.gesture.index].pathname) ==>
              s.navigation == Some(items[x.gesture.index].pathname)
  {
    match x.gesture
    case RowClick(i, e) => ClickRow(d, x.location, items[i], e)
    case _ => Step(Toggle(d, x.gesture.e), None)
  }

  /** The drawer state and the navigations emitted over a session. */
  datatype Trace = Trace(drawer: Drawer, navigations: seq<string>)

  predicate ValidSession(items: seq<NavItem>, xs: seq<Interaction>)
  {
    forall k :: 0 <= k < |xs| ==> ValidGesture(items, xs[k].gesture)
  }

  /** A path is one of the entries' paths. */
  predicate InCatalog(items: seq<NavItem>, path: string)
  {
    exists i :: 0 <= i < |items| && items[i].pathname == path
  }

  /**
    Handles the interactions in order, starting from drawer state `d`. Every
    navigation goes to a catalog path, and there is at most one per gesture.
  */
  function Run(d: Drawer, items: seq<NavItem>, xs: seq<Interaction>): (t: Trace)
    requires ValidSession(items, xs)
    ensures |t.navigations| <= |xs|
    ensures forall k :: 0 <= k < |t.navigations| ==> InCatalog(items, t.navigations[k])
  {
    if |xs| == 0 then Trace(d, [])
    else
      var prev := Run(d, items, xs[..|xs| - 1]);
      var x := xs[|xs| - 1];
      var s := Handle(prev.drawer, items, x);
      assert s.navigation.Some? ==> InCatalog(items, s.navigation.value) by {
        if s.navigation.Some? {
          assert items[x.gesture.index].pathname == s.navigation.value;
        }
      }
      Trace(s.drawer, prev.navigations + (if s.navigation.Some? then [s.navigation.value] else []))
  }

  /** The native events of a session, in order. */
  function Events(xs: seq<Interaction>): seq<NativeEvent>
  {
    seq(|xs|, k requires 0 <= k < |xs| => xs[k].gesture.e)
  }

  /**
    Reference list of the navigations a session must produce: the path of every
    click on a row that is not selected at the time, in order.
  */
  function Targets(items: seq<NavItem>, xs: seq<Interaction>): seq<string>
    requires ValidSession(items, xs)
  {
    if |xs| == 0 then []
    else
      var x := xs[|xs| - 1];
      Targets(items, xs[..|xs| - 1]) +
        (if x.gesture.RowClick? && !IsSelected(x.location, items[x.gesture.index].pathname)
         then [items[x.gesture.index].pathname] else [])
  }

  /**
    Over a whole session, the drawer ends flipped once per non-filtered event, and
    the navigations are exactly the paths of the clicks on unselected rows, in order.
  */
  lemma {:induction false} SessionInvariant(d: Drawer, items: seq<NavItem>, xs: seq<Interaction>)
    requires ValidSession(items, xs)
    ensures Run(d, items, xs).drawer == FlipTimes(d, Effective(Events(xs)))
    ensures Run(d, items, xs).navigations == Targets(items, xs)
  {
    if |xs| > 0 {
      var init := xs[..|xs| - 1];
      SessionInvariant(d, items, init);
      var es := Events(xs);
      assert Events(init) == es[..|es| - 1];
    }
  }

  /** The shell mounts with the drawer closed and has emitted nothing. */
  lemma MountsClosed(items: seq<NavItem>)
    ensures Run(Initial, items, []) == Trace(Closed, [])
  {
  }
}
