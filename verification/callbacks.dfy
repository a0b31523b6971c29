/**
 * The panel button's event callbacks as a decision table: which keyboard
 * action a click, a scroll or a window-manager notification leads to,
 * and the value the callback returns to GTK (true stops the event from
 * propagating further).
 */
module Callbacks {
  import opened Nullable

  /** The GDK event types a button callback can receive. */
  datatype ButtonEventType = ButtonPress | DoubleButtonPress | TripleButtonPress | ButtonRelease

  datatype ScrollDirection = ScrollUp | ScrollDown | ScrollLeft | ScrollRight | ScrollSmooth

  /** What the callback asks of the keyboard and the panel. */
  datatype KeyboardAction = NoAction | PopupMenu | NextGroup | PrevGroup

  /** The action taken and the `gboolean` the callback returns. */
  datatype Dispatch = Dispatch(action: KeyboardAction, handled: bool)

  /**
   * `xkb_plugin_button_clicked`: with the left button, a press opens the
   * group menu when there are more than two groups, and a release switches
   * to the next group when there are at most two. Only opening the menu
   * stops the event.
   */
  function ButtonClicked(button: nat, kind: ButtonEventType, groupCount: int): (r: Dispatch)
    ensures r.handled <==> r.action == PopupMenu
    ensures r.action == PopupMenu <==> button == 1 && kind != ButtonRelease && groupCount > 2
    ensures r.action == NextGroup <==> button == 1 && kind == ButtonRelease && groupCount <= 2
    ensures r.action != PrevGroup
  {
    if button == 1 then
      var released := kind == ButtonRelease;
      var displayPopup := groupCount > 2;
      if displayPopup && !released then Dispatch(PopupMenu, true)
      else if !displayPopup && released then Dispatch(NextGroup, false)
      else Dispatch(NoAction, false)
    else Dispatch(NoAction, false)
  }

  /**
   * A left click (a press, then a release) does exactly one thing: it
   * opens the menu on the press when there are more than two groups, and
   * switches to the next group on the release otherwise.
   */
  lemma LeftClickActsOnce(groupCount: int)
    ensures var press, release := ButtonClicked(1, ButtonPress, groupCount), ButtonClicked(1, ButtonRelease, groupCount);
      && (press.action == NoAction) != (release.action == NoAction)
      && (groupCount > 2 ==> press.action == PopupMenu && release.action == NoAction)
      && (groupCount <= 2 ==> press.action == NoAction && release.action == NextGroup)
  {
  }

  /**
   * `xkb_plugin_button_scrolled`: up and right select the next group, down
   * and left the previous one, and those stop the event; a smooth scroll
   * does nothing.
   */
  function ButtonScrolled(direction: ScrollDirection): (r: Dispatch)
    ensures r.handled <==> r.action != NoAction
    ensures r.action == NextGroup <==> direction == ScrollUp || direction == ScrollRight
    ensures r.action == PrevGroup <==> direction == ScrollDown || direction == ScrollLeft
    ensures r.action != PopupMenu
  {
    match direction
    case ScrollUp => Dispatch(NextGroup, true)
    case ScrollRight => Dispatch(NextGroup, true)
    case ScrollDown => Dispatch(PrevGroup, true)
    case ScrollLeft => Dispatch(PrevGroup, true)
    case ScrollSmooth => Dispatch(NoAction, false)
  }

  /** The direction that undoes a scroll. */
  function Opposite(direction: ScrollDirection): ScrollDirection
  {
    match direction
    case ScrollUp => ScrollDown
    case ScrollDown => ScrollUp
    case ScrollLeft => ScrollRight
    case ScrollRight => ScrollLeft
    case ScrollSmooth => ScrollSmooth
  }

  /** Scrolling one way and back asks for one step forward and one step back, in some order. */
  lemma OppositeScrollsStepBothWays(direction: ScrollDirection)
    requires direction != ScrollSmooth
    ensures {ButtonScrolled(direction).action, ButtonScrolled(Opposite(direction)).action} == {NextGroup, PrevGroup}
  {
  }

  /** A window as libwnck reports it: its X window id (an unsigned long) and its process id (an int). */
  datatype Window = Window(xid: nat, pid: int)

  /** The calls forwarded to the keyboard's group tracking. */
  datatype KeyboardNotice =
    | WindowChanged(windowId: nat, applicationId: nat)
    | ApplicationClosed(applicationId: nat)
    | WindowClosed(windowId: nat)

  const GuintModulus: nat := 0x1_0000_0000

  /** C's conversion of an integer to a 32-bit `guint`: the one value below 2^32 congruent to it modulo 2^32. */
  function ToGuint(x: int): (r: nat)
    ensures r < GuintModulus
    ensures (x - r) % GuintModulus == 0
  {
    x % GuintModulus
  }

  /** A value that already fits in a `guint` is unchanged by the conversion, and only such a value is. */
  lemma ToGuintKeepsSmall(x: int)
    ensures ToGuint(x) == x <==> 0 <= x < GuintModulus
  {
  }

  /** The bound and the congruence of `ToGuint` single out its value: no other `guint` is congruent to `x`. */
  lemma GuintDetermined(x: int, y: int)
    requires 0 <= y < GuintModulus
    requires (y - x) % GuintModulus == 0
    ensures y == ToGuint(x)
  {
    var k := (y - x) / GuintModulus;
    assert y - x == k * GuintModulus;
    assert x % GuintModulus == y;
  }

  /**
   * `xkb_plugin_active_window_changed`: with no active window nothing is
   * forwarded; otherwise the window's X id and process id, both stored in
   * `guint` variables, are forwarded to the keyboard.
   */
  function ActiveWindowChanged(active: Option<Window>): (r: Option<KeyboardNotice>)
    ensures r.None? <==> active.None?
    ensures r.Some? ==>
      r.value.WindowChanged? && r.value.windowId < GuintModulus && r.value.applicationId < GuintModulus
    ensures r.Some? && active.Some? ==>
      && (r.value.windowId - active.value.xid) % GuintModulus == 0
      && (r.value.applicationId - active.value.pid) % GuintModulus == 0
    ensures active.Some? && active.value.xid < GuintModulus && 0 <= active.value.pid < GuintModulus ==>
      r == Some(WindowChanged(active.value.xid, active.value.pid))
  {
    match active
    case None => None
    case Some(w) => Some(WindowChanged(ToGuint(w.xid), ToGuint(w.pid)))
  }

  /** `xkb_plugin_application_closed`: the application's process id is forwarded as a `guint`. */
  function ApplicationClosedNotice(pid: int): (r: KeyboardNotice)
    ensures r.ApplicationClosed? && r.applicationId < GuintModulus
    ensures (r.applicationId - pid) % GuintModulus == 0
    ensures 0 <= pid < GuintModulus ==> r.applicationId == pid
  {
    ApplicationClosed(ToGuint(pid))
  }

  /** `xkb_plugin_window_closed`: the window's X id is forwarded as a `guint`. */
  function WindowClosedNotice(xid: nat): (r: KeyboardNotice)
    ensures r.WindowClosed? && r.windowId < GuintModulus
    ensures (r.windowId - xid) % GuintModulus == 0
    ensures xid < GuintModulus ==> r.windowId == xid
  {
    WindowClosed(ToGuint(xid))
  }
}
