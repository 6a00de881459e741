// The window manager of src/scheme.rs as a state machine: a snapshot of every
// field of `OrbitalScheme` the handlers change, and one function per handler
// giving the snapshot it leaves behind. The class in orbital_scheme.dfy
// performs the same steps in place and is proved to end in these states.
module SchemeState {
  import opened Helpers
  import opened Rects
  import opened Damage
  import opened ZSort
  import opened Events
  import opened Utf8
  import opened Text
  import opened Displays
  import opened Scheme

  /** What a pointer drag is doing: which window, and the offsets it keeps. */
  datatype DragMode =
    | NoDrag
    | TitleDrag(id: nat, x: int, y: int)
    | LeftDrag(id: nat, offX: int, rightX: int)
    | RightDrag(id: nat, offX: int)
    | BottomDrag(id: nat, offY: int)
    | BottomLeftDrag(id: nat, offX: int, offY: int, rightX: int)
    | BottomRightDrag(id: nat, offX: int, offY: int)

  /** The pointer: the cursor shown, where it is, and the buttons held at the last button event. */
  datatype Pointer = Pointer(kind: CursorKind, x: int, y: int, left: bool, middle: bool, right: bool)

  /** The Super key, the window switcher and the volume keys. */
  datatype Keys = Keys(winKey: bool, winTabbing: bool, volumeValue: int, volumeToggle: int, volumeOsd: bool)

  /** The fields of `OrbitalScheme` that the handlers read and write, grouped. */
  datatype Desk = Desk(
    cursor: Pointer, dragging: DragMode, hover: Option<nat>, keys: Keys, nextId: int,
    order: seq<nat>, zbuffer: seq<ZSlot>, windows: map<nat, SchemeWindow>,
    redraws: seq<Rect>, clipboard: seq<Byte>)

  /** The sizes of the cursor images, by kind. */
  type CursorSizes = CursorKind -> (nat, nat)

  // More events, encoded as the `orbclient` crate encodes them.
  function Bit(b: bool): int { if b then 1 else 0 }
  function HoverEvent(entered: bool): Event { Event(EVENT_HOVER, Bit(entered), 0) }
  function PointerEvent(x: int, y: int): Event { Event(EVENT_MOUSE, x, y) }
  function RelativeEvent(dx: int, dy: int): Event { Event(EVENT_MOUSE_RELATIVE, dx, dy) }
  function ButtonEvent(left: bool, middle: bool, right: bool): Event {
    Event(EVENT_BUTTON, Bit(left) + 2 * Bit(middle) + 4 * Bit(right), 0)
  }
  function KeyEvent(character: char, scancode: Byte, pressed: bool): Event {
    Event(EVENT_KEY, character as int, scancode + 256 * Bit(pressed))
  }
  function TextInputEvent(character: char): Event { Event(EVENT_TEXT_INPUT, character as int, 0) }
  function ClipboardEvent(kind: int): Event { Event(EVENT_CLIPBOARD, kind, 0) }

  // Steps the handlers share.

  /** `schedule` of a window's title bar and body, when the window exists. */
  function Repaint(s: Desk, id: nat): Desk {
    if id in s.windows then s.(redraws := ScheduledWindow(s.redraws, s.windows[id])) else s
  }

  /** `window.event(e)`, when the window exists. */
  function Notify(s: Desk, id: nat, e: Event): (r: Desk)
    ensures Requeued(s, r)
  {
    NotifyKeeps(s, id, e);
    if id in s.windows then s.(windows := s.windows[id := Notified(s.windows[id], e)]) else s
  }

  /** Queueing an event changes only that window's queue, which coalesces it. */
  lemma NotifySpec(s: Desk, id: nat, e: Event)
    ensures var r := Notify(s, id, e);
      r == s.(windows := r.windows) && r.windows.Keys == s.windows.Keys &&
      (id in s.windows ==> r.windows[id] == s.windows[id].(events := Coalesced(s.windows[id].events, e))) &&
      (forall j :: j in s.windows && j != id ==> r.windows[j] == s.windows[j])
  {
  }

  /** The front window redrawn and told whether it has the focus. */
  function FocusChanged(s: Desk, focused: bool): (r: Desk)
    ensures r == s.(redraws := r.redraws, windows := r.windows) && r.windows.Keys == s.windows.Keys
  {
    if s.order != [] then Notify(Repaint(s, s.order[0]), s.order[0], FocusEvent(focused)) else s
  }

  /** A focus change leaves everything but the redraw list and the front window's queue alone. */
  lemma FocusChangedFrame(s: Desk, focused: bool)
    ensures var r := FocusChanged(s, focused);
      r == s.(redraws := r.redraws, windows := r.windows) && r.windows.Keys == s.windows.Keys &&
      (forall j :: j in s.windows && (s.order == [] || j != s.order[0]) ==> r.windows[j] == s.windows[j]) &&
      (s.order == [] || s.order[0] !in s.windows ==> r == s)
  {
  }

  /** The front window queues the focus event and both its rectangles end up covered. */
  lemma FocusChangedFront(s: Desk, focused: bool)
    requires s.order != [] && s.order[0] in s.windows
    ensures var r := FocusChanged(s, focused); var w := s.windows[s.order[0]];
      r.windows[s.order[0]] == Notified(w, FocusEvent(focused)) &&
      Covered(r.redraws, w.TitleBar()) && Covered(r.redraws, w.Body()) &&
      (forall q :: Covered(s.redraws, q) ==> Covered(r.redraws, q))
  {
    ScheduledWindowCovers(s.redraws, s.windows[s.order[0]]);
  }

  /**
   * A focus change touches only the front window: its rectangles become
   * covered, it queues the focus event, and nothing else changes.
   */
  lemma FocusChangedSpec(s: Desk, focused: bool)
    ensures var r := FocusChanged(s, focused);
      r == s.(redraws := r.redraws, windows := r.windows) && r.windows.Keys == s.windows.Keys &&
      (forall q :: Covered(s.redraws, q) ==> Covered(r.redraws, q)) &&
      (forall j :: j in s.windows && (s.order == [] || j != s.order[0]) ==> r.windows[j] == s.windows[j]) &&
      (s.order == [] || s.order[0] !in s.windows ==> r == s) &&
      (s.order != [] && s.order[0] in s.windows ==>
        var w := s.windows[s.order[0]];
        r.windows[s.order[0]] == Notified(w, FocusEvent(focused)) &&
        Covered(r.redraws, w.TitleBar()) && Covered(r.redraws, w.Body()))
  {
    FocusChangedFrame(s, focused);
    if s.order != [] && s.order[0] in s.windows {
      FocusChangedFront(s, focused);
    }
  }

  // `win_tab`.

  function WinTabbed(s: Desk): (r: Desk)
    ensures r == s.(order := r.order, dragging := r.dragging, redraws := r.redraws, windows := r.windows)
    ensures r.windows.Keys == s.windows.Keys && (r.order == s.order || (|s.order| > 1 && r.order == Rotated(s.order)))
  {
    if |s.order| > 1 then
      var t := FocusChanged(s.(dragging := NoDrag), false);
      FocusChanged(t.(order := Rotated(t.order)), true)
    else s
  }

  /**
   * Win+Tab with more than one window ends any drag and sends the front
   * window to the back; the old front hears it lost the focus, the new one
   * that it gained it, and both are redrawn. With one window or none it does
   * nothing.
   */
  lemma WinTabbedSpec(s: Desk)
    ensures |s.order| <= 1 ==> WinTabbed(s) == s
    ensures |s.order| > 1 ==> var r := WinTabbed(s);
      r == s.(order := Rotated(s.order), dragging := NoDrag, redraws := r.redraws, windows := r.windows) &&
      multiset(r.order) == multiset(s.order) && r.order[|r.order| - 1] == s.order[0] &&
      r.windows.Keys == s.windows.Keys &&
      (forall q :: Covered(s.redraws, q) ==> Covered(r.redraws, q)) &&
      (forall j :: j in s.windows && j != s.order[0] && j != s.order[1] ==> r.windows[j] == s.windows[j]) &&
      (s.order[0] != s.order[1] && s.order[0] in s.windows ==>
        r.windows[s.order[0]] == Notified(s.windows[s.order[0]], FocusEvent(false))) &&
      (s.order[0] != s.order[1] && s.order[1] in s.windows ==>
        r.windows[s.order[1]] == Notified(s.windows[s.order[1]], FocusEvent(true)) &&
        Covered(r.redraws, s.windows[s.order[1]].Body()))
  {
    if |s.order| > 1 {
      WinTabbedFrame(s);
      WinTabbedFocus(s);
    }
  }

  lemma WinTabbedFrame(s: Desk)
    requires |s.order| > 1
    ensures var r := WinTabbed(s);
      r == s.(order := Rotated(s.order), dragging := NoDrag, redraws := r.redraws, windows := r.windows) &&
      multiset(r.order) == multiset(s.order) && r.order[|r.order| - 1] == s.order[0] &&
      r.windows.Keys == s.windows.Keys &&
      (forall j :: j in s.windows && j != s.order[0] && j != s.order[1] ==> r.windows[j] == s.windows[j])
  {
    RotatedSpec(s.order);
    var t0 := s.(dragging := NoDrag);
    var t := FocusChanged(t0, false);
    FocusChangedFrame(t0, false);
    assert t == t0.(redraws := t.redraws, windows := t.windows);
    var u := t.(order := Rotated(t.order));
    assert u == s.(order := Rotated(s.order), dragging := NoDrag, redraws := t.redraws, windows := t.windows);
    var r := FocusChanged(u, true);
    FocusChangedFrame(u, true);
    assert r == u.(redraws := r.redraws, windows := r.windows);
  }

  lemma WinTabbedFocus(s: Desk)
    requires |s.order| > 1
    ensures var r := WinTabbed(s);
      (forall q :: Covered(s.redraws, q) ==> Covered(r.redraws, q)) &&
      (s.order[0] != s.order[1] && s.order[0] in s.windows ==>
        r.windows[s.order[0]] == Notified(s.windows[s.order[0]], FocusEvent(false))) &&
      (s.order[0] != s.order[1] && s.order[1] in s.windows ==>
        r.windows[s.order[1]] == Notified(s.windows[s.order[1]], FocusEvent(true)) &&
        Covered(r.redraws, s.windows[s.order[1]].Body()))
  {
    var t0 := s.(dragging := NoDrag);
    var t := FocusChanged(t0, false);
    FocusChangedSpec(t0, false);
    var u := t.(order := Rotated(t.order));
    assert u.order[0] == s.order[1];
    FocusChangedSpec(u, true);
  }

  // Refocusing after a click: the `focus > 0` block of `button_event`.

  /**
   * `order.remove(focus)`, then the removed id pushed to the front, or put
   * back where it was for a Back window; an id with no window is dropped.
   */
  function Reordered(order: seq<nat>, windows: map<nat, SchemeWindow>, focus: nat): seq<nat> {
    if focus < |order| then
      var id := order[focus];
      var rest := RemoveAt(order, focus);
      if id !in windows then rest
      else if windows[id].style.zorder == Back then InsertAt(rest, focus, id)
      else [id] + rest
    else order
  }

  /**
   * A clicked window takes the front of the focus order unless it is a Back
   * window, whose place does not change; the order stays a permutation.
   */
  lemma ReorderedSpec(order: seq<nat>, windows: map<nat, SchemeWindow>, focus: nat)
    ensures focus >= |order| ==> Reordered(order, windows, focus) == order
    ensures focus < |order| && order[focus] in windows ==>
      var r := Reordered(order, windows, focus);
      multiset(r) == multiset(order) &&
      (windows[order[focus]].style.zorder == Back ==> r == order) &&
      (windows[order[focus]].style.zorder != Back ==> r[0] == order[focus] && r[1..] == RemoveAt(order, focus))
  {
    if focus < |order| && order[focus] in windows {
      var id := order[focus];
      RemoveAtMultiset(order, focus);
      if windows[id].style.zorder == Back {
        assert InsertAt(RemoveAt(order, focus), focus, id) == order;
      } else {
        assert ([id] + RemoveAt(order, focus))[1..] == RemoveAt(order, focus);
      }
    }
  }

  function Refocused(s: Desk, focus: nat): Desk {
    var t := FocusChanged(s, false);
    FocusChanged(t.(order := Reordered(t.order, t.windows, focus)), true)
  }

  /**
   * Refocusing reorders as above, keeps the set of windows, and tells the
   * old front it lost the focus and the new front it gained it.
   */
  lemma RefocusedSpec(s: Desk, focus: nat)
    ensures var r := Refocused(s, focus);
      r == s.(order := Reordered(s.order, s.windows, focus), redraws := r.redraws, windows := r.windows) &&
      r.windows.Keys == s.windows.Keys &&
      (forall q :: Covered(s.redraws, q) ==> Covered(r.redraws, q)) &&
      (r.order != [] && r.order[0] in s.windows && (s.order == [] || s.order[0] != r.order[0]) ==>
        r.windows[r.order[0]] == Notified(s.windows[r.order[0]], FocusEvent(true)))
  {
    var t := FocusChanged(s, false);
    FocusChangedFrame(s, false);
    var o := Reordered(t.order, t.windows, focus);
    assert o == Reordered(s.order, s.windows, focus) by {
      if focus < |s.order| && s.order[focus] in s.windows {
        assert t.windows[s.order[focus]].style.zorder == s.windows[s.order[focus]].style.zorder;
      }
    }
    var u := t.(order := o);
    assert u == s.(order := o, redraws := t.redraws, windows := t.windows);
    FocusChangedFrame(u, true);
    RefocusedNotices(s, t, u);
  }

  lemma RefocusedNotices(s: Desk, t: Desk, u: Desk)
    requires t == FocusChanged(s, false) && u == t.(order := u.order)
    ensures var r := FocusChanged(u, true);
      (forall q :: Covered(s.redraws, q) ==> Covered(r.redraws, q)) &&
      (u.order != [] && u.order[0] in s.windows && (s.order == [] || s.order[0] != u.order[0]) ==>
        r.windows[u.order[0]] == Notified(s.windows[u.order[0]], FocusEvent(true)))
  {
    FocusChangedSpec(s, false);
    FocusChangedSpec(u, true);
  }

  // `update_cursor`.

  /** `cursor_rect` of the current cursor. */
  function CursorBox(s: Desk, sizes: CursorSizes): Rect {
    CursorRect(s.cursor.kind, s.cursor.x, s.cursor.y, sizes(s.cursor.kind).0, sizes(s.cursor.kind).1)
  }

  /** The rectangles under the cursor before and after a change, both scheduled. */
  function CursorMoved(s: Desk, t: Desk, sizes: CursorSizes): Desk {
    t.(redraws := Scheduled(Scheduled(s.redraws, CursorBox(s, sizes)), CursorBox(t, sizes)))
  }

  function CursorUpdated(s: Desk, sizes: CursorSizes, x: int, y: int, kind: CursorKind): (r: Desk)
    ensures r == s.(cursor := s.cursor.(kind := kind, x := x, y := y), redraws := r.redraws)
  {
    var t := if kind != s.cursor.kind then CursorMoved(s, s.(cursor := s.cursor.(kind := kind)), sizes) else s;
    if x != t.cursor.x || y != t.cursor.y then CursorMoved(t, t.(cursor := t.cursor.(x := x, y := y)), sizes) else t
  }

  /**
   * After `update_cursor` the cursor is of the given kind at the given point;
   * when anything changed, the rectangle it left and the one it now covers are
   * both scheduled, and nothing else changes.
   */
  lemma CursorUpdatedSpec(s: Desk, sizes: CursorSizes, x: int, y: int, kind: CursorKind)
    ensures var r := CursorUpdated(s, sizes, x, y, kind);
      r == s.(cursor := s.cursor.(kind := kind, x := x, y := y), redraws := r.redraws) &&
      (forall q :: Covered(s.redraws, q) ==> Covered(r.redraws, q)) &&
      ((kind, x, y) == (s.cursor.kind, s.cursor.x, s.cursor.y) ==> r == s) &&
      ((kind, x, y) != (s.cursor.kind, s.cursor.x, s.cursor.y) ==>
        Covered(r.redraws, CursorBox(s, sizes)) && Covered(r.redraws, CursorBox(r, sizes)))
  {
    var t := if kind != s.cursor.kind then CursorMoved(s, s.(cursor := s.cursor.(kind := kind)), sizes) else s;
    if kind != s.cursor.kind {
      CursorMovedSpec(s, s.(cursor := s.cursor.(kind := kind)), sizes);
    }
    var r := CursorUpdated(s, sizes, x, y, kind);
    if x != t.cursor.x || y != t.cursor.y {
      CursorMovedSpec(t, t.(cursor := t.cursor.(x := x, y := y)), sizes);
    } else {
      assert r == t;
    }
  }

  /** One half of `update_cursor`: the old and the new cursor rectangle scheduled. */
  lemma CursorMovedSpec(s: Desk, t: Desk, sizes: CursorSizes)
    ensures var r := CursorMoved(s, t, sizes);
      Covered(r.redraws, CursorBox(s, sizes)) && Covered(r.redraws, CursorBox(t, sizes)) &&
      forall q :: Covered(s.redraws, q) ==> Covered(r.redraws, q)
  {
    ScheduledKeeps(s.redraws, CursorBox(s, sizes));
    ScheduledKeeps(Scheduled(s.redraws, CursorBox(s, sizes)), CursorBox(t, sizes));
  }

  // Hit testing, the scan both `mouse_event` and `button_event` make.

  /** Which part of a window a point falls in, in the order the handlers look. */
  datatype Zone = Miss | InBody | InTitle | InLeft | InRight | InBottom | InBottomLeft | InBottomRight

  function ZoneOf(w: SchemeWindow, px: int, py: int): Zone {
    if w.Body().Contains(px, py) then InBody
    else if w.TitleBar().Contains(px, py) then InTitle
    else if w.LeftBorder().Contains(px, py) then InLeft
    else if w.RightBorder().Contains(px, py) then InRight
    else if w.BottomBorder().Contains(px, py) then InBottom
    else if w.BottomLeftBorder().Contains(px, py) then InBottomLeft
    else if w.BottomRightBorder().Contains(px, py) then InBottomRight
    else Miss
  }

  /** The rectangle of each zone. */
  function ZoneRect(w: SchemeWindow, z: Zone): Rect
    requires z != Miss
  {
    match z
    case InBody => w.Body()
    case InTitle => w.TitleBar()
    case InLeft => w.LeftBorder()
    case InRight => w.RightBorder()
    case InBottom => w.BottomBorder()
    case InBottomLeft => w.BottomLeftBorder()
    case InBottomRight => w.BottomRightBorder()
  }

  /** The precedence of a zone: the body comes first, a miss last. */
  function ZoneRank(z: Zone): nat {
    match z
    case InBody => 0
    case InTitle => 1
    case InLeft => 2
    case InRight => 3
    case InBottom => 4
    case InBottomLeft => 5
    case InBottomRight => 6
    case Miss => 7
  }

  /** The zone found holds the point, and no zone of higher precedence does. */
  lemma ZoneOfSpec(w: SchemeWindow, px: int, py: int)
    ensures var z := ZoneOf(w, px, py);
      (z != Miss ==> ZoneRect(w, z).Contains(px, py)) &&
      (ZoneRank(z) > 0 ==> !w.Body().Contains(px, py)) &&
      (ZoneRank(z) > 1 ==> !w.TitleBar().Contains(px, py)) &&
      (ZoneRank(z) > 2 ==> !w.LeftBorder().Contains(px, py)) &&
      (ZoneRank(z) > 3 ==> !w.RightBorder().Contains(px, py)) &&
      (ZoneRank(z) > 4 ==> !w.BottomBorder().Contains(px, py)) &&
      (ZoneRank(z) > 5 ==> !w.BottomLeftBorder().Contains(px, py)) &&
      (ZoneRank(z) > 6 ==> !w.BottomRightBorder().Contains(px, py))
  {
  }

  /** Entry `k` of the z-buffer names a window that the point falls in. */
  predicate Hits(zb: seq<ZSlot>, windows: map<nat, SchemeWindow>, k: nat, px: int, py: int)
    requires k < |zb|
  {
    zb[k].id in windows && ZoneOf(windows[zb[k].id], px, py) != Miss
  }

  /** The scan over the z-buffer from entry `k`: the first entry hit. */
  function ProbeFrom(zb: seq<ZSlot>, windows: map<nat, SchemeWindow>, px: int, py: int, k: nat): (r: Option<nat>)
    requires k <= |zb|
    ensures r.Some? ==>
      k <= r.value < |zb| && Hits(zb, windows, r.value, px, py) &&
      (forall j :: k <= j < r.value ==> !Hits(zb, windows, j, px, py))
    ensures r.None? ==> forall j :: k <= j < |zb| ==> !Hits(zb, windows, j, px, py)
    decreases |zb| - k
  {
    if k == |zb| then None
    else if Hits(zb, windows, k, px, py) then Some(k)
    else ProbeFrom(zb, windows, px, py, k + 1)
  }

  // Maximizing from the title bar's max button.

  /** The area a display shares with a rectangle. */
  function Overlap(d: Display, r: Rect): nat { Intersection(ScreenRect(d), r).Area() }

  /** The display loop: the index and area of the first display sharing the most area, from (0, 0). */
  function BestDisplay(ds: seq<Display>, r: Rect): (nat, nat)
  {
    if ds == [] then (0, 0)
    else
      var p := BestDisplay(ds[..|ds| - 1], r);
      var a := Overlap(ds[|ds| - 1], r);
      if a > p.1 then (|ds| - 1, a) else p
  }

  /**
   * The display chosen shares at least as much area with the window as any
   * other, and strictly more than every display before it.
   */
  lemma {:induction false} BestDisplaySpec(ds: seq<Display>, r: Rect)
    requires ds != []
    ensures var (i, a) := BestDisplay(ds, r);
      i < |ds| && a == Overlap(ds[i], r) &&
      (forall j :: 0 <= j < |ds| ==> Overlap(ds[j], r) <= a) &&
      (forall j :: 0 <= j < i ==> Overlap(ds[j], r) < a)
  {
    var n := |ds| - 1;
    var init := ds[..n];
    if n == 0 {
      assert BestDisplay(init, r) == (0, 0);
    } else {
      BestDisplaySpec(init, r);
      var p := BestDisplay(init, r);
      assert forall j :: 0 <= j < n ==> ds[j] == init[j];
      if Overlap(ds[n], r) <= p.1 {
        assert BestDisplay(ds, r) == p;
      }
    }
  }

  /**
   * The max button: a window without a saved rectangle saves its body and
   * moves to the top left of the best display, just under its title bar, and
   * asks to fill the display; a window with one moves back and asks for the
   * saved size. The window's rectangles are scheduled before and after.
   */
  function Maximized(w: SchemeWindow, redraws: seq<Rect>, ds: seq<Display>): (r: (SchemeWindow, seq<Rect>))
    requires ds != [] || w.maxRestore.Some?
    ensures Relocated(w, r.0)
  {
    var restore := w.maxRestore;
    var w1 := w.(maxRestore := if restore.None? then Some(w.Body()) else None);
    var rs1 := ScheduledWindow(redraws, w1);
    var best := BestDisplay(ds, w1.Body()).0;
    var best' := if best < |ds| then best else 0;
    var x := if restore.Some? then restore.value.Left() else ds[best'].x;
    var y := if restore.Some? then restore.value.Top() else ds[best'].y + w1.TitleBar().h;
    var w2 := Notified(w1.(x := x, y := y), MoveEvent(x, y));
    var rs2 := ScheduledWindow(rs1, w2);
    var width: int := if restore.Some? then restore.value.w else ds[best'].width;
    var height: int := if restore.Some? then restore.value.h else ds[best'].height - y;
    (Notified(w2, ResizeEvent(AsU32(width), AsU32(height))), rs2)
  }

  /** `v` is `w` moved, with another saved rectangle and more events queued. */
  predicate Relocated(w: SchemeWindow, v: SchemeWindow) {
    v == w.(x := v.x, y := v.y, maxRestore := v.maxRestore, events := v.events)
  }

  /**
   * Maximizing and then pressing the button again brings the window back to
   * where it was, forgets the saved rectangle and asks for the old size; the
   * size itself changes only when the client answers the resize request.
   */
  lemma MaximizedRestores(w: SchemeWindow, redraws: seq<Rect>, ds: seq<Display>)
    requires ds != [] && w.maxRestore.None?
    ensures var (m, rs) := Maximized(w, redraws, ds);
      m.maxRestore == Some(w.Body()) && m.width == w.width && m.height == w.height &&
      var (back, _) := Maximized(m, rs, ds);
      back.x == w.x && back.y == w.y && back.width == w.width && back.height == w.height &&
      back.maxRestore.None? &&
      back.events[|back.events| - 1] == ResizeEvent(AsU32(w.width), AsU32(w.height))
  {
    var (m, rs) := Maximized(w, redraws, ds);
    MaximizedSaves(w, redraws, ds);
    var m1 := m.(maxRestore := None);
    var m2 := Notified(m1.(x := w.x, y := w.y), MoveEvent(w.x, w.y));
    var e := ResizeEvent(AsU32(w.width), AsU32(w.height));
    assert Maximized(m, rs, ds).0 == Notified(m2, e);
    CoalescedSpec(m2.events, e);
  }

  /** The first press saves the body and keeps the size until the client answers. */
  lemma MaximizedSaves(w: SchemeWindow, redraws: seq<Rect>, ds: seq<Display>)
    requires ds != [] && w.maxRestore.None?
    ensures var m := Maximized(w, redraws, ds).0;
      m.maxRestore == Some(w.Body()) && m.width == w.width && m.height == w.height
  {
  }

  // `mouse_event`.

  /** The windows with their queues emptied. */
  function Unqueued(ws: map<nat, SchemeWindow>): map<nat, SchemeWindow> {
    map j | j in ws :: ws[j].(events := [])
  }

  /** The size of every window. */
  function Sizes(ws: map<nat, SchemeWindow>): map<nat, (nat, nat)> {
    map j | j in ws :: (ws[j].width, ws[j].height)
  }

  /** `t` differs from `s` only in what the windows have queued. */
  predicate Requeued(s: Desk, t: Desk) {
    t == s.(windows := t.windows) && t.windows.Keys == s.windows.Keys &&
    Unqueued(t.windows) == Unqueued(s.windows) && Sizes(t.windows) == Sizes(s.windows)
  }

  /**
   * `t` differs from `s` only in the drag, the redraw list, and where the
   * windows are and what they have queued: no window is created, removed or
   * resized.
   */
  predicate Dragging(s: Desk, t: Desk) {
    t == s.(dragging := t.dragging, redraws := t.redraws, windows := t.windows) &&
    t.windows.Keys == s.windows.Keys && Sizes(t.windows) == Sizes(s.windows)
  }

  lemma NotifyKeeps(s: Desk, id: nat, e: Event)
    ensures id in s.windows ==>
      Unqueued(s.windows[id := Notified(s.windows[id], e)]) == Unqueued(s.windows) &&
      Sizes(s.windows[id := Notified(s.windows[id], e)]) == Sizes(s.windows)
  {
    if id in s.windows {
      var ws := s.windows[id := Notified(s.windows[id], e)];
      assert Unqueued(ws) == Unqueued(s.windows) by {
        assert forall j :: j in ws ==> ws[j].(events := []) == s.windows[j].(events := []);
      }
    }
  }

  lemma SizesMoved(ws: map<nat, SchemeWindow>, id: nat, x: int, y: int, e: Event)
    requires id in ws
    ensures Sizes(ws[id := Notified(ws[id].(x := x, y := y), e)]) == Sizes(ws)
  {
  }

  /** Sizes kept means the same windows, each as large as before. */
  lemma SizesSame(a: map<nat, SchemeWindow>, b: map<nat, SchemeWindow>)
    requires Sizes(a) == Sizes(b)
    ensures a.Keys == b.Keys
    ensures forall j :: j in a ==> a[j].width == b[j].width && a[j].height == b[j].height
  {
    assert a.Keys == Sizes(a).Keys && b.Keys == Sizes(b).Keys;
    forall j | j in a
      ensures a[j].width == b[j].width && a[j].height == b[j].height
    {
      assert Sizes(a)[j] == Sizes(b)[j];
    }
  }

  /** A window redrawn, moved to (x, y), told so, and redrawn where it now is. */
  function MovedTo(s: Desk, id: nat, x: int, y: int): (r: Desk)
    requires id in s.windows
    ensures Dragging(s, r) && r.dragging == s.dragging && r.windows[id].x == x && r.windows[id].y == y
  {
    SizesMoved(s.windows, id, x, y, MoveEvent(x, y));
    var t := Repaint(s, id);
    var w := Notified(s.windows[id].(x := x, y := y), MoveEvent(x, y));
    Repaint(t.(windows := t.windows[id := w]), id)
  }

  lemma MovedToCovers(s: Desk, id: nat, x: int, y: int)
    requires id in s.windows
    ensures forall q :: Covered(s.redraws, q) ==> Covered(MovedTo(s, id, x, y).redraws, q)
  {
    ScheduledWindowCovers(s.redraws, s.windows[id]);
    ScheduledWindowCovers(Repaint(s, id).redraws, Notified(s.windows[id].(x := x, y := y), MoveEvent(x, y)));
  }

  /**
   * The window under the pointer is told it is hovered, if it was not, and
   * where the pointer is, unless the super key is held.
   */
  function Entered(s: Desk, id: nat, px: int, py: int): (r: Desk)
    requires id in s.windows
    ensures Requeued(s, r)
  {
    var t := if Some(id) != s.hover then Notify(s, id, HoverEvent(true)) else s;
    if !s.keys.winKey then Notify(t, id, PointerEvent(px - s.windows[id].x, py - s.windows[id].y)) else t
  }

  /**
   * The scan when nothing is dragged: the cursor to show, the window now
   * hovered, and the state after the window under the pointer has been told.
   * It only queues events, and hovers only a window whose body holds the point.
   */
  function HoverScan(s: Desk, px: int, py: int): (r: (CursorKind, Option<nat>, Desk))
    ensures Requeued(s, r.2)
    ensures r.1.Some? ==> r.1.value in s.windows && s.windows[r.1.value].Body().Contains(px, py)
  {
    match ProbeFrom(s.zbuffer, s.windows, px, py, 0)
    case None => (LeftPtr, None, s)
    case Some(k) =>
      var id := s.zbuffer[k].id;
      var w := s.windows[id];
      match ZoneOf(w, px, py)
      case InBody => (if w.settings.mouseCursor then LeftPtr else NoCursor, Some(id), Entered(s, id, px, py))
      case InLeft => (LeftSide, None, s)
      case InRight => (RightSide, None, s)
      case InBottom => (BottomSide, None, s)
      case InBottomLeft => (BottomLeftCorner, None, s)
      case InBottomRight => (BottomRightCorner, None, s)
      case _ => (LeftPtr, None, s)
  }

  /** The title bar follows the pointer: the window moves by the pointer's motion. */
  function TitleDragged(s: Desk, px: int, py: int): (r: Desk)
    requires s.dragging.TitleDrag? && s.dragging.id in s.windows
    ensures Dragging(s, r) && r.dragging == TitleDrag(s.dragging.id, px, py)
    ensures r.windows[s.dragging.id].x == s.windows[s.dragging.id].x + (px - s.dragging.x)
    ensures r.windows[s.dragging.id].y == s.windows[s.dragging.id].y + (py - s.dragging.y)
  {
    if s.dragging.x != px || s.dragging.y != py then
      MovedTo(s, s.dragging.id, TitleTargetX(s, px), TitleTargetY(s, py)).(dragging := TitleDrag(s.dragging.id, px, py))
    else s
  }

  /** Where a title drag puts the window: moved by the pointer's motion since the last event. */
  function TitleTargetX(s: Desk, px: int): int
    requires s.dragging.TitleDrag? && s.dragging.id in s.windows
  {
    s.windows[s.dragging.id].x + (px - s.dragging.x)
  }

  function TitleTargetY(s: Desk, py: int): int
    requires s.dragging.TitleDrag? && s.dragging.id in s.windows
  {
    s.windows[s.dragging.id].y + (py - s.dragging.y)
  }

  /** The left edge follows the pointer and the right edge stays; only the client resizes. */
  function LeftDragged(s: Desk, px: int): (r: Desk)
    requires s.dragging.LeftDrag? && s.dragging.id in s.windows
    ensures Dragging(s, r) && r.dragging == s.dragging
  {
    var id := s.dragging.id;
    var w := s.windows[id];
    var x := LeftEdgeX(s, px);
    var width := s.dragging.rightX - x;
    if width > 0 then
      var t := if x != w.x then MovedTo(s, id, x, w.y) else s;
      if width != w.width then Notify(t, id, ResizeEvent(AsU32(width), AsU32(w.height))) else t
    else s
  }

  /** Where a drag on a left edge puts that edge. */
  function LeftEdgeX(s: Desk, px: int): int
    requires s.dragging.LeftDrag? || s.dragging.BottomLeftDrag?
  {
    px - s.dragging.offX
  }

  function RightDragged(s: Desk, px: int): (r: Desk)
    requires s.dragging.RightDrag? && s.dragging.id in s.windows
    ensures Requeued(s, r)
  {
    var id := s.dragging.id;
    var w := s.windows[id];
    var width := px - s.dragging.offX - w.x;
    if width > 0 && width != w.width then Notify(s, id, ResizeEvent(AsU32(width), AsU32(w.height))) else s
  }

  function BottomDragged(s: Desk, py: int): (r: Desk)
    requires s.dragging.BottomDrag? && s.dragging.id in s.windows
    ensures Requeued(s, r)
  {
    var id := s.dragging.id;
    var w := s.windows[id];
    var height := py - s.dragging.offY - w.y;
    if height > 0 && height != w.height then Notify(s, id, ResizeEvent(AsU32(w.width), AsU32(height))) else s
  }

  /** The bottom left corner follows the pointer and the right edge stays. */
  function BottomLeftDragged(s: Desk, px: int, py: int): (r: Desk)
    requires s.dragging.BottomLeftDrag? && s.dragging.id in s.windows
    ensures Dragging(s, r) && r.dragging == s.dragging
  {
    var id := s.dragging.id;
    var w := s.windows[id];
    var x := LeftEdgeX(s, px);
    var height := py - s.dragging.offY - w.y;
    var width := s.dragging.rightX - x;
    if width > 0 && height > 0 then
      var t := if x != w.x then MovedTo(s, id, x, w.y) else s;
      if width != w.width || height != w.height then Notify(t, id, ResizeEvent(AsU32(width), AsU32(height))) else t
    else s
  }

  function BottomRightDragged(s: Desk, px: int, py: int): (r: Desk)
    requires s.dragging.BottomRightDrag? && s.dragging.id in s.windows
    ensures Requeued(s, r)
  {
    var id := s.dragging.id;
    var w := s.windows[id];
    var width := px - s.dragging.offX - w.x;
    var height := py - s.dragging.offY - w.y;
    if width > 0 && height > 0 && (width != w.width || height != w.height)
    then Notify(s, id, ResizeEvent(AsU32(width), AsU32(height))) else s
  }

  /**
   * A move while dragging, with the cursor it shows. The drag ends only when
   * its window has gone; a title drag follows the pointer, the others stay.
   */
  function Dragged(s: Desk, px: int, py: int): (r: (CursorKind, Desk))
    requires !s.dragging.NoDrag?
    ensures Dragging(s, r.1)
    ensures s.dragging.id !in s.windows ==> r.1.dragging == NoDrag
    ensures s.dragging.id in s.windows && !s.dragging.TitleDrag? ==> r.1.dragging == s.dragging
    ensures s.dragging.id in s.windows && s.dragging.TitleDrag? ==> r.1 == TitleDragged(s, px, py)
  {
    if s.dragging.id !in s.windows then (LeftPtr, s.(dragging := NoDrag))
    else
      match s.dragging
      case TitleDrag(_, _, _) => (LeftPtr, TitleDragged(s, px, py))
      case LeftDrag(_, _, _) => (LeftSide, LeftDragged(s, px))
      case RightDrag(_, _) => (RightSide, RightDragged(s, px))
      case BottomDrag(_, _) => (BottomSide, BottomDragged(s, py))
      case BottomLeftDrag(_, _, _, _) => (BottomLeftCorner, BottomLeftDragged(s, px, py))
      case BottomRightDrag(_, _, _) => (BottomRightCorner, BottomRightDragged(s, px, py))
  }

  /** Both kinds of move: the cursor, the new hover and the state after the windows were told. */
  function Scanned(s: Desk, px: int, py: int): (r: (CursorKind, Option<nat>, Desk))
    ensures Dragging(s, r.2)
    ensures s.dragging.NoDrag? ==> r.2.dragging == NoDrag
    ensures !s.dragging.NoDrag? ==> r.1.None? && r.2 == Dragged(s, px, py).1
  {
    if s.dragging.NoDrag? then HoverScan(s, px, py)
    else var (kind, t) := Dragged(s, px, py); (kind, None, t)
  }

  /** The hover changes: the window left is told, and the new one recorded. */
  function Hovered(s: Desk, hover: Option<nat>): (r: Desk)
    ensures r.hover == hover && Requeued(s.(hover := hover), r)
  {
    if hover != s.hover then
      (if s.hover.Some? then Notify(s, s.hover.value, HoverEvent(false)) else s).(hover := hover)
    else s
  }

  /** `mouse_event`. */
  function PointerMoved(s: Desk, sizes: CursorSizes, px: int, py: int): (r: Desk)
    ensures r == s.(cursor := s.cursor.(kind := r.cursor.kind, x := px, y := py), dragging := r.dragging,
                    hover := r.hover, redraws := r.redraws, windows := r.windows)
    ensures r.windows.Keys == s.windows.Keys && Sizes(r.windows) == Sizes(s.windows)
  {
    var (kind, hover, t) := Scanned(s, px, py);
    CursorUpdated(Hovered(t, hover), sizes, px, py, kind)
  }

  /** Whatever a drag schedules, it keeps what was scheduled before. */
  lemma DraggedCovers(s: Desk, px: int, py: int)
    requires !s.dragging.NoDrag?
    ensures forall q :: Covered(s.redraws, q) ==> Covered(Dragged(s, px, py).1.redraws, q)
  {
    if s.dragging.id in s.windows {
      if s.dragging.TitleDrag? {
        TitleDraggedCovers(s, px, py);
      } else if s.dragging.LeftDrag? || s.dragging.BottomLeftDrag? {
        LeftDraggedCovers(s, px, py);
      }
    }
  }

  lemma TitleDraggedCovers(s: Desk, px: int, py: int)
    requires s.dragging.TitleDrag? && s.dragging.id in s.windows
    ensures forall q :: Covered(s.redraws, q) ==> Covered(TitleDragged(s, px, py).redraws, q)
  {
    MovedToCovers(s, s.dragging.id, TitleTargetX(s, px), TitleTargetY(s, py));
  }

  lemma LeftDraggedCovers(s: Desk, px: int, py: int)
    requires (s.dragging.LeftDrag? || s.dragging.BottomLeftDrag?) && s.dragging.id in s.windows
    ensures forall q :: Covered(s.redraws, q) ==>
      Covered((if s.dragging.LeftDrag? then LeftDragged(s, px) else BottomLeftDragged(s, px, py)).redraws, q)
  {
    MovedToCovers(s, s.dragging.id, LeftEdgeX(s, px), s.windows[s.dragging.id].y);
  }

  /** `mouse_event` keeps everything scheduled, and no window is created, removed or resized. */
  lemma PointerMovedKeeps(s: Desk, sizes: CursorSizes, px: int, py: int)
    ensures var r := PointerMoved(s, sizes, px, py);
      r.cursor == s.cursor.(kind := r.cursor.kind, x := px, y := py) &&
      r.order == s.order && r.zbuffer == s.zbuffer && r.keys == s.keys && r.nextId == s.nextId &&
      r.clipboard == s.clipboard && Sizes(r.windows) == Sizes(s.windows) &&
      (forall q :: Covered(s.redraws, q) ==> Covered(r.redraws, q))
  {
    if !s.dragging.NoDrag? {
      DraggedCovers(s, px, py);
    }
    CursorUpdatedSpec(Hovered(Scanned(s, px, py).2, Scanned(s, px, py).1), sizes, px, py, Scanned(s, px, py).0);
  }

  /** A drag ends only when its window has gone; a title drag follows the pointer, moving the window with it. */
  lemma PointerMovedDrags(s: Desk, sizes: CursorSizes, px: int, py: int)
    ensures var r := PointerMoved(s, sizes, px, py);
      (s.dragging.NoDrag? ==> r.dragging == NoDrag) &&
      (!s.dragging.NoDrag? ==> r.hover.None?) &&
      (!s.dragging.NoDrag? && s.dragging.id !in s.windows ==> r.dragging == NoDrag) &&
      (!s.dragging.NoDrag? && s.dragging.id in s.windows && !s.dragging.TitleDrag? ==> r.dragging == s.dragging) &&
      (s.dragging.TitleDrag? && s.dragging.id in s.windows ==>
        r.dragging == TitleDrag(s.dragging.id, px, py) && s.dragging.id in r.windows &&
        r.windows[s.dragging.id].x == s.windows[s.dragging.id].x + (px - s.dragging.x) &&
        r.windows[s.dragging.id].y == s.windows[s.dragging.id].y + (py - s.dragging.y))
  {
    CursorUpdatedSpec(Hovered(Scanned(s, px, py).2, Scanned(s, px, py).1), sizes, px, py, Scanned(s, px, py).0);
    UnqueuedSame(Hovered(Scanned(s, px, py).2, Scanned(s, px, py).1).windows, Scanned(s, px, py).2.windows);
  }

  /** Windows equal but for their queues are in the same places. */
  lemma UnqueuedSame(a: map<nat, SchemeWindow>, b: map<nat, SchemeWindow>)
    requires a.Keys == b.Keys && Unqueued(a) == Unqueued(b)
    ensures forall j :: j in a ==> a[j].x == b[j].x && a[j].y == b[j].y
  {
    forall j | j in a
      ensures a[j].x == b[j].x && a[j].y == b[j].y
    {
      assert Unqueued(a)[j] == Unqueued(b)[j];
    }
  }

  /** Window `j` of `b` is window `j` of `a`, but for its place and its queue. */
  predicate Shifted(a: map<nat, SchemeWindow>, b: map<nat, SchemeWindow>, j: nat) {
    j in a && j in b && b[j] == a[j].(x := b[j].x, y := b[j].y, events := b[j].events)
  }

  /** Only the queues changed, so every window is as before but for its queue. */
  lemma RequeuedShifts(s: Desk, t: Desk, j: nat)
    requires Requeued(s, t) && j in s.windows
    ensures Shifted(s.windows, t.windows, j) && t.windows[j].x == s.windows[j].x && t.windows[j].y == s.windows[j].y
  {
    assert Unqueued(s.windows)[j] == Unqueued(t.windows)[j];
  }

  /** Moving window `id` changes only its place and its queue, and no other window. */
  lemma MovedToShifts(s: Desk, id: nat, x: int, y: int, j: nat)
    requires id in s.windows && j in s.windows
    ensures Shifted(s.windows, MovedTo(s, id, x, y).windows, j)
    ensures j != id ==> MovedTo(s, id, x, y).windows[j] == s.windows[j]
  {
    assert MovedTo(s, id, x, y).windows == s.windows[id := Notified(s.windows[id].(x := x, y := y), MoveEvent(x, y))];
  }

  /** A drag step changes only places and queues, and the place only of the window dragged. */
  lemma DraggedShifts(s: Desk, px: int, py: int, j: nat)
    requires !s.dragging.NoDrag? && j in s.windows
    ensures var r := Dragged(s, px, py).1;
      Shifted(s.windows, r.windows, j) &&
      (j != s.dragging.id ==> r.windows[j].x == s.windows[j].x && r.windows[j].y == s.windows[j].y)
  {
    var id := s.dragging.id;
    if id in s.windows {
      match s.dragging
      case TitleDrag(_, _, _) =>
        if s.dragging.x != px || s.dragging.y != py {
          MovedToShifts(s, id, TitleTargetX(s, px), TitleTargetY(s, py), j);
        }
      case LeftDrag(_, _, _) =>
        var x := LeftEdgeX(s, px);
        if s.dragging.rightX - x > 0 {
          var t := if x != s.windows[id].x then MovedTo(s, id, x, s.windows[id].y) else s;
          if x != s.windows[id].x {
            MovedToShifts(s, id, x, s.windows[id].y, j);
            SizesMoved(s.windows, id, x, s.windows[id].y, MoveEvent(x, s.windows[id].y));
          }
          if s.dragging.rightX - x != s.windows[id].width {
            RequeuedShifts(t, LeftDragged(s, px), j);
          }
        }
      case RightDrag(_, _) => RequeuedShifts(s, RightDragged(s, px), j);
      case BottomDrag(_, _) => RequeuedShifts(s, BottomDragged(s, py), j);
      case BottomLeftDrag(_, _, _, _) =>
        var x := LeftEdgeX(s, px);
        var height := py - s.dragging.offY - s.windows[id].y;
        var width := s.dragging.rightX - x;
        if width > 0 && height > 0 {
          var t := if x != s.windows[id].x then MovedTo(s, id, x, s.windows[id].y) else s;
          if x != s.windows[id].x {
            MovedToShifts(s, id, x, s.windows[id].y, j);
            SizesMoved(s.windows, id, x, s.windows[id].y, MoveEvent(x, s.windows[id].y));
          }
          if width != s.windows[id].width || height != s.windows[id].height {
            RequeuedShifts(t, BottomLeftDragged(s, px, py), j);
          }
        }
      case BottomRightDrag(_, _, _) => RequeuedShifts(s, BottomRightDragged(s, px, py), j);
    }
  }

  /**
   * `mouse_event` changes a window only in its place and its queue, and moves
   * no window but the one being dragged: title, flags, scale and settings stay.
   */
  lemma PointerMovedShifts(s: Desk, sizes: CursorSizes, px: int, py: int, j: nat)
    requires j in s.windows
    ensures var r := PointerMoved(s, sizes, px, py);
      Shifted(s.windows, r.windows, j) &&
      ((s.dragging.NoDrag? || s.dragging.id != j) ==> r.windows[j].x == s.windows[j].x && r.windows[j].y == s.windows[j].y)
  {
    var (kind, hover, t) := Scanned(s, px, py);
    if s.dragging.NoDrag? {
      RequeuedShifts(s, t, j);
    } else {
      DraggedShifts(s, px, py, j);
    }
    RequeuedShifts(t.(hover := hover), Hovered(t, hover), j);
  }

  /**
   * `mouse_event` puts the cursor where the pointer is and ends a drag only
   * when the dragged window has gone; a title drag follows the pointer and
   * moves the window by the pointer's motion, the other drags only ask the
   * client for a new size. No window is created, removed or resized, the
   * focus order is untouched and nothing scheduled is lost.
   */
  lemma PointerMovedSpec(s: Desk, sizes: CursorSizes, px: int, py: int)
    ensures var r := PointerMoved(s, sizes, px, py);
      r.cursor.x == px && r.cursor.y == py &&
      r.cursor.left == s.cursor.left && r.cursor.middle == s.cursor.middle && r.cursor.right == s.cursor.right &&
      r.order == s.order && r.zbuffer == s.zbuffer && r.keys == s.keys && r.nextId == s.nextId &&
      r.clipboard == s.clipboard && r.windows.Keys == s.windows.Keys &&
      (forall j :: j in s.windows ==> r.windows[j].width == s.windows[j].width && r.windows[j].height == s.windows[j].height) &&
      (forall q :: Covered(s.redraws, q) ==> Covered(r.redraws, q)) &&
      (s.dragging.NoDrag? ==> r.dragging == NoDrag) &&
      (!s.dragging.NoDrag? ==> r.hover.None?) &&
      (!s.dragging.NoDrag? && s.dragging.id !in s.windows ==> r.dragging == NoDrag) &&
      (!s.dragging.NoDrag? && s.dragging.id in s.windows && !s.dragging.TitleDrag? ==> r.dragging == s.dragging) &&
      (s.dragging.TitleDrag? && s.dragging.id in s.windows ==>
        r.dragging == TitleDrag(s.dragging.id, px, py) &&
        r.windows[s.dragging.id].x == s.windows[s.dragging.id].x + (px - s.dragging.x) &&
        r.windows[s.dragging.id].y == s.windows[s.dragging.id].y + (py - s.dragging.y))
  {
    PointerMovedKeeps(s, sizes, px, py);
    PointerMovedDrags(s, sizes, px, py);
    SizesSame(PointerMoved(s, sizes, px, py).windows, s.windows);
  }

  // `button_event`.

  /** The left button goes down with this event. */
  predicate LeftPress(s: Desk, left: bool) { left && !s.cursor.left }

  /** Some button goes down with this event. */
  predicate AnyPress(s: Desk, left: bool, middle: bool, right: bool) {
    (left && !s.cursor.left) || (middle && !s.cursor.middle) || (right && !s.cursor.right)
  }

  /**
   * A press while nothing is dragged, in zone `z` of window `id`, which sits
   * at place `i` of the focus order: the state after that part of the window
   * has acted, and the place in the focus order to bring forward, 0 for none.
   * Only that window, the drag and the redraw list can change, and a drag can
   * start only on that window, with a fresh press of the left button.
   */
  function PressedAt(s: Desk, ds: seq<Display>, id: nat, i: nat, z: Zone, left: bool, middle: bool, right: bool): (r: (Desk, nat))
    requires id in s.windows && s.dragging.NoDrag? && ds != []
    ensures r.0 == s.(dragging := r.0.dragging, redraws := r.0.redraws, windows := r.0.windows)
    ensures id in r.0.windows && r.0.windows == s.windows[id := r.0.windows[id]]
    ensures Relocated(s.windows[id], r.0.windows[id])
    ensures r.1 == 0 || r.1 == i
    ensures LeftPress(s, left) && z != Miss ==> r.1 == i
    ensures !r.0.dragging.NoDrag? ==> LeftPress(s, left) && r.0.dragging.id == id
  {
    var w := s.windows[id];
    if z == Miss then (s, 0)
    else if z == InBody then
      if s.keys.winKey then
        if !LeftPress(s, left) then (s, 0)
        else if w.style.borderless then (s, i)
        else (s.(dragging := TitleDrag(id, s.cursor.x, s.cursor.y)), i)
      else (Notify(s, id, ButtonEvent(left, middle, right)), if AnyPress(s, left, middle, right) then i else 0)
    else if !LeftPress(s, left) then (s, 0)
    else if z == InTitle then (TitlePressed(s, ds, id), i)
    else (s.(dragging := BorderDrag(w, id, z, s.cursor.x, s.cursor.y)), i)
  }

  /** A fresh left press on the title bar: the max button, the close button, or a title drag. */
  function TitlePressed(s: Desk, ds: seq<Display>, id: nat): (r: Desk)
    requires id in s.windows && ds != []
    ensures r == s.(dragging := r.dragging, redraws := r.redraws, windows := r.windows)
    ensures id in r.windows && r.windows == s.windows[id := r.windows[id]]
    ensures Relocated(s.windows[id], r.windows[id])
    ensures r.dragging == s.dragging || r.dragging == TitleDrag(id, s.cursor.x, s.cursor.y)
  {
    var w := s.windows[id];
    if w.MaxContains(s.cursor.x, s.cursor.y) && w.style.resizable then
      var m := Maximized(w, s.redraws, ds);
      s.(redraws := m.1, windows := s.windows[id := m.0])
    else if w.CloseContains(s.cursor.x, s.cursor.y) && !w.style.unclosable then Notify(s, id, QUIT_EVENT)
    else s.(dragging := TitleDrag(id, s.cursor.x, s.cursor.y))
  }

  /**
   * The drag a fresh left press on a border starts: the pointer's offset
   * from the edges it moves, and for a left edge where the right edge is.
   */
  function BorderDrag(w: SchemeWindow, id: nat, z: Zone, cx: int, cy: int): (r: DragMode)
    ensures r.LeftDrag? || r.RightDrag? || r.BottomDrag? || r.BottomLeftDrag? || r.BottomRightDrag?
    ensures r.id == id
    ensures z == InLeft ==> r.LeftDrag?
    ensures z == InRight ==> r.RightDrag?
    ensures z == InBottom ==> r.BottomDrag?
    ensures z == InBottomLeft ==> r.BottomLeftDrag?
    ensures (r.LeftDrag? || r.BottomLeftDrag?) ==> cx - r.offX == w.x && r.rightX == w.x + w.width
    ensures (r.RightDrag? || r.BottomRightDrag?) ==> cx - r.offX == w.x + w.width
    ensures (r.BottomDrag? || r.BottomLeftDrag? || r.BottomRightDrag?) ==> cy - r.offY == w.y + w.height
  {
    match z
    case InLeft => LeftDrag(id, cx - w.x, w.x + w.width)
    case InRight => RightDrag(id, cx - (w.x + w.width))
    case InBottom => BottomDrag(id, cy - (w.y + w.height))
    case InBottomLeft => BottomLeftDrag(id, cx - w.x, cy - (w.y + w.height), w.x + w.width)
    case _ => BottomRightDrag(id, cx - (w.x + w.width), cy - (w.y + w.height))
  }

  /** The scan of `button_event` when nothing is dragged, then the refocus. */
  function PressedFree(s: Desk, ds: seq<Display>, left: bool, middle: bool, right: bool): (r: Desk)
    requires s.dragging.NoDrag? && ds != []
    ensures r == s.(order := r.order, dragging := r.dragging, redraws := r.redraws, windows := r.windows)
    ensures r.windows.Keys == s.windows.Keys
  {
    match ProbeFrom(s.zbuffer, s.windows, s.cursor.x, s.cursor.y, 0)
    case None => s
    case Some(k) =>
      var e := s.zbuffer[k];
      var p := PressedAt(s, ds, e.id, e.index, ZoneOf(s.windows[e.id], s.cursor.x, s.cursor.y), left, middle, right);
      RefocusedSpec(p.0, p.1);
      if p.1 > 0 then Refocused(p.0, p.1) else p.0
  }

  /** `button_event`: the scan or the end of a drag, then the buttons recorded. */
  function Pressed(s: Desk, ds: seq<Display>, left: bool, middle: bool, right: bool): Desk
    requires ds != []
  {
    var t := if s.dragging.NoDrag? then PressedFree(s, ds, left, middle, right)
      else if !left then s.(dragging := NoDrag) else s;
    t.(cursor := t.cursor.(left := left, middle := middle, right := right))
  }

  /**
   * `button_event` records the buttons, keeps the windows, and while
   * something is dragged changes nothing else but ends the drag when the
   * left button is up.
   */
  lemma PressedKeeps(s: Desk, ds: seq<Display>, left: bool, middle: bool, right: bool)
    requires ds != []
    ensures var r := Pressed(s, ds, left, middle, right);
      r.cursor == s.cursor.(left := left, middle := middle, right := right) &&
      r.hover == s.hover && r.keys == s.keys && r.nextId == s.nextId && r.zbuffer == s.zbuffer &&
      r.clipboard == s.clipboard && r.windows.Keys == s.windows.Keys &&
      (!s.dragging.NoDrag? ==>
        r.order == s.order && r.windows == s.windows && r.redraws == s.redraws &&
        r.dragging == (if left then s.dragging else NoDrag))
  {
  }

  /**
   * What each part of the hit window does with a press: the body forwards
   * the buttons to the client, or with the super key held starts a title
   * drag; the title bar's max button maximizes, its close button asks the
   * client to quit, and elsewhere the title bar starts a drag; a border
   * starts the drag of its edges. Without a fresh left press only the body
   * does anything, and only a fresh press focuses.
   */
  lemma PressedAtSpec(s: Desk, ds: seq<Display>, id: nat, i: nat, z: Zone, left: bool, middle: bool, right: bool)
    requires id in s.windows && s.dragging.NoDrag? && ds != []
    ensures var r := PressedAt(s, ds, id, i, z, left, middle, right);
      var w := s.windows[id];
      (z == InBody && !s.keys.winKey ==>
        r.0 == s.(windows := s.windows[id := Notified(w, ButtonEvent(left, middle, right))]) &&
        r.1 == (if AnyPress(s, left, middle, right) then i else 0)) &&
      (z == InBody && s.keys.winKey ==>
        r.0.windows == s.windows && r.0.redraws == s.redraws &&
        r.0.dragging == (if LeftPress(s, left) && !w.style.borderless then TitleDrag(id, s.cursor.x, s.cursor.y) else NoDrag)) &&
      (z != InBody && !LeftPress(s, left) ==> r == (s, 0)) &&
      (z == InTitle && LeftPress(s, left) && w.MaxContains(s.cursor.x, s.cursor.y) && w.style.resizable ==>
        r.0.windows[id] == Maximized(w, s.redraws, ds).0 && r.0.dragging == NoDrag) &&
      (z == InTitle && LeftPress(s, left) && !(w.MaxContains(s.cursor.x, s.cursor.y) && w.style.resizable) &&
        w.CloseContains(s.cursor.x, s.cursor.y) && !w.style.unclosable ==>
        r.0.windows[id] == Notified(w, QUIT_EVENT) && r.0.dragging == NoDrag) &&
      (z == InTitle && LeftPress(s, left) && !(w.MaxContains(s.cursor.x, s.cursor.y) && w.style.resizable) &&
        !(w.CloseContains(s.cursor.x, s.cursor.y) && !w.style.unclosable) ==>
        r.0 == s.(dragging := TitleDrag(id, s.cursor.x, s.cursor.y))) &&
      (z != Miss && z != InBody && z != InTitle && LeftPress(s, left) ==>
        r.0 == s.(dragging := BorderDrag(w, id, z, s.cursor.x, s.cursor.y)))
  {
  }

  /**
   * A press on nothing, or on a window already at the front, leaves the focus
   * order as it is; a fresh left press on a window brings it to the front
   * unless it is a background window, which keeps its place. The focus order
   * stays a permutation when the hit entry describes its place in it.
   */
  lemma PressedFocus(s: Desk, ds: seq<Display>, left: bool, middle: bool, right: bool)
    requires ds != [] && s.dragging.NoDrag?
    ensures var r := Pressed(s, ds, left, middle, right);
      var hit := ProbeFrom(s.zbuffer, s.windows, s.cursor.x, s.cursor.y, 0);
      (hit.None? ==> r == s.(cursor := s.cursor.(left := left, middle := middle, right := right))) &&
      (hit.Some? && SlotOf(s.order, s.windows, s.zbuffer[hit.value]) ==>
        var id := s.zbuffer[hit.value].id;
        multiset(r.order) == multiset(s.order) &&
        (s.windows[id].style.zorder == Back ==> r.order == s.order) &&
        (LeftPress(s, left) && s.windows[id].style.zorder != Back ==> r.order[0] == id))
  {
    var hit := ProbeFrom(s.zbuffer, s.windows, s.cursor.x, s.cursor.y, 0);
    if hit.Some? && SlotOf(s.order, s.windows, s.zbuffer[hit.value]) {
      RefocusedOrder(s, ds, hit.value, left, middle, right);
    }
  }

  lemma RefocusedOrder(s: Desk, ds: seq<Display>, k: nat, left: bool, middle: bool, right: bool)
    requires ds != [] && s.dragging.NoDrag? && k < |s.zbuffer| && SlotOf(s.order, s.windows, s.zbuffer[k])
    requires Hits(s.zbuffer, s.windows, k, s.cursor.x, s.cursor.y)
    ensures var e := s.zbuffer[k];
      var p := PressedAt(s, ds, e.id, e.index, ZoneOf(s.windows[e.id], s.cursor.x, s.cursor.y), left, middle, right);
      var r := if p.1 > 0 then Refocused(p.0, p.1) else p.0;
      multiset(r.order) == multiset(s.order) &&
      (s.windows[e.id].style.zorder == Back ==> r.order == s.order) &&
      (LeftPress(s, left) && s.windows[e.id].style.zorder != Back ==> r.order[0] == e.id)
  {
    var e := s.zbuffer[k];
    var p := PressedAt(s, ds, e.id, e.index, ZoneOf(s.windows[e.id], s.cursor.x, s.cursor.y), left, middle, right);
    RefocusedSpec(p.0, p.1);
    ReorderedSpec(s.order, p.0.windows, p.1);
  }

  // `key_event`.

  // Scancodes of the `orbclient` crate (set 1), and the codes the handler
  // tests itself: the super key and the three volume keys.
  const K_SUPER: Byte := 0x5B
  const K_VOLUME_TOGGLE: Byte := 0x80 + 0x20
  const K_VOLUME_DOWN: Byte := 0x80 + 0x2E
  const K_VOLUME_UP: Byte := 0x80 + 0x30
  const K_TAB: Byte := 0x0F
  const K_Q: Byte := 0x10
  const K_BRACE_OPEN: Byte := 0x1A
  const K_BRACE_CLOSE: Byte := 0x1B
  const K_BACKSLASH: Byte := 0x2B
  const K_X: Byte := 0x2D
  const K_C: Byte := 0x2E
  const K_V: Byte := 0x2F
  const K_UP: Byte := 0x48
  const K_LEFT: Byte := 0x4B
  const K_RIGHT: Byte := 0x4D
  const K_DOWN: Byte := 0x50

  const CLIPBOARD_COPY: int := 0
  const CLIPBOARD_CUT: int := 1
  const CLIPBOARD_PASTE: int := 2

  /** What a super event adds to the event code. */
  const SUPER_FLAG: int := 0x1000_0000

  /**
   * `volume(kind)`, with `audio:volume` read as `read` (`None` when reading
   * fails) and `writeOk` whether writing the new value back succeeds. A value
   * that cannot be read or parsed changes nothing; otherwise the new value is
   * kept even when the write fails, but only a write shows the display.
   */
  function VolumeSet(s: Desk, kind: Volume, read: Option<string>, writeOk: bool): (r: Desk)
    ensures r == s.(keys := r.keys)
    ensures r.keys.winKey == s.keys.winKey && r.keys.winTabbing == s.keys.winTabbing
    ensures read.None? || ParseI32(read.value).None? ==> r == s
    ensures read.Some? && ParseI32(read.value).Some? ==>
      (r.keys.volumeValue, r.keys.volumeToggle) == VolumeStep(kind, ParseI32(read.value).value, s.keys.volumeToggle) &&
      r.keys.volumeOsd == (s.keys.volumeOsd || writeOk)
  {
    if read.None? then s
    else match ParseI32(read.value)
      case None => s
      case Some(value) =>
        var (v, t) := VolumeStep(kind, value, s.keys.volumeToggle);
        s.(keys := s.keys.(volumeValue := v, volumeToggle := t, volumeOsd := s.keys.volumeOsd || writeOk))
  }

  /** A volume key: a press steps the volume, a release hides the display. */
  function VolumeKey(s: Desk, kind: Volume, pressed: bool, read: Option<string>, writeOk: bool): (r: Desk)
    ensures r == s.(keys := r.keys)
  {
    if pressed then VolumeSet(s, kind, read, writeOk) else s.(keys := s.keys.(volumeOsd := false))
  }

  /** An event for the front window, when there is one. */
  function FrontNotify(s: Desk, e: Event): (r: Desk)
    ensures Requeued(s, r)
  {
    if s.order != [] then Notify(s, s.order[0], e) else s
  }

  /** Super and an arrow: the front window, unless borderless, snapped to the grid and moved one step. */
  function ArrowMoved(s: Desk, key: Arrow, screenW: int, screenH: int): (r: Desk)
    ensures r == s.(redraws := r.redraws, windows := r.windows) && r.windows.Keys == s.windows.Keys
  {
    if s.order != [] && s.order[0] in s.windows && !s.windows[s.order[0]].style.borderless then
      var id := s.order[0];
      var t := Repaint(s, id);
      var m := GridMoved(s.windows[id], key, screenW, screenH);
      Repaint(t.(windows := t.windows[id := Notified(m, MoveEvent(m.x, m.y))]), id)
    else s
  }

  /** The least key of a non-empty set: the first entry of a `BTreeMap`. */
  function Least(ks: set<nat>): (r: nat)
    requires ks != {}
    ensures r in ks && forall k :: k in ks ==> r <= k
  {
    LeastExists(ks);
    var m :| m in ks && forall k :: k in ks ==> m <= k; m
  }

  lemma {:induction false} LeastExists(ks: set<nat>)
    requires ks != {}
    ensures exists m :: m in ks && forall k :: k in ks ==> m <= k
    decreases |ks|
  {
    var a :| a in ks;
    var rest := ks - {a};
    if rest == {} {
      assert ks == {a};
      assert forall k :: k in ks ==> a <= k;
    } else {
      LeastExists(rest);
      var m :| m in rest && forall k :: k in rest ==> m <= k;
      LeastJoined(ks, a, m);
    }
  }

  lemma LeastJoined(ks: set<nat>, a: nat, m: nat)
    requires a in ks && m in ks - {a} && forall k :: k in ks - {a} ==> m <= k
    ensures Min(a, m) in ks && forall k :: k in ks ==> Min(a, m) <= k
  {
    forall k | k in ks
      ensures Min(a, m) <= k
    {
      if k != a {
        assert k in ks - {a};
      }
    }
  }

  /** The super event: the key event with the super flag added to its code. */
  function SuperEvent(character: char, scancode: Byte, pressed: bool): Event {
    var e := KeyEvent(character, scancode, pressed);
    e.(code := e.code + SUPER_FLAG)
  }

  /** A key other than super and the volume keys while super is held. */
  function WinCommand(s: Desk, scancode: Byte, pressed: bool, character: char,
                      read: Option<string>, writeOk: bool, screenW: int, screenH: int): (r: Desk)
    ensures r == s.(keys := r.keys, dragging := r.dragging, order := r.order, redraws := r.redraws, windows := r.windows)
    ensures r.windows.Keys == s.windows.Keys && (r.order == s.order || (|s.order| > 1 && r.order == Rotated(s.order)))
  {
    if scancode == K_Q then (if pressed then FrontNotify(s, QUIT_EVENT) else s)
    else if scancode == K_TAB then (if pressed then WinTabbed(s.(keys := s.keys.(winTabbing := true))) else s)
    else if scancode == K_BRACE_OPEN then (if pressed then VolumeSet(s, Down, read, writeOk) else s)
    else if scancode == K_BRACE_CLOSE then (if pressed then VolumeSet(s, Up, read, writeOk) else s)
    else if scancode == K_BACKSLASH then (if pressed then VolumeSet(s, Toggle, read, writeOk) else s)
    else if scancode in {K_UP, K_DOWN, K_LEFT, K_RIGHT} then
      if pressed then
        var key := if scancode == K_LEFT then ArrowLeft else if scancode == K_RIGHT then ArrowRight
          else if scancode == K_UP then ArrowUp else ArrowDown;
        ArrowMoved(s, key, screenW, screenH)
      else s
    else if scancode == K_C then (if pressed then FrontNotify(s, ClipboardEvent(CLIPBOARD_COPY)) else s)
    else if scancode == K_X then (if pressed then FrontNotify(s, ClipboardEvent(CLIPBOARD_CUT)) else s)
    else if scancode == K_V then (if pressed then FrontNotify(s, ClipboardEvent(CLIPBOARD_PASTE)) else s)
    else if s.windows.Keys != {} then Notify(s, Least(s.windows.Keys), SuperEvent(character, scancode, pressed))
    else s
  }

  /**
   * `key_event`, with the volume read and write results and the screen size
   * as parameters.
   */
  function Keyed(s: Desk, scancode: Byte, pressed: bool, character: char,
                 read: Option<string>, writeOk: bool, screenW: int, screenH: int): (r: Desk)
    ensures r == s.(keys := r.keys, dragging := r.dragging, order := r.order, redraws := r.redraws, windows := r.windows)
    ensures r.windows.Keys == s.windows.Keys && (r.order == s.order || (|s.order| > 1 && r.order == Rotated(s.order)))
  {
    if scancode == K_SUPER then
      s.(keys := if pressed then s.keys.(winKey := true) else s.keys.(winKey := false, winTabbing := false, volumeOsd := false))
    else if scancode == K_VOLUME_TOGGLE then VolumeKey(s, Toggle, pressed, read, writeOk)
    else if scancode == K_VOLUME_DOWN then VolumeKey(s, Down, pressed, read, writeOk)
    else if scancode == K_VOLUME_UP then VolumeKey(s, Up, pressed, read, writeOk)
    else if s.keys.winKey then WinCommand(s, scancode, pressed, character, read, writeOk, screenW, screenH)
    else if s.order != [] && s.order[0] in s.windows then
      var t := if pressed && character != 0 as char then Notify(s, s.order[0], TextInputEvent(character)) else s;
      Notify(t, s.order[0], KeyEvent(character, scancode, pressed))
    else s
  }

  /** The scancodes `key_event` handles before it looks at the super key. */
  predicate SystemKey(scancode: Byte) {
    scancode == K_SUPER || scancode == K_VOLUME_TOGGLE || scancode == K_VOLUME_DOWN || scancode == K_VOLUME_UP
  }

  /**
   * The super key sets the flag; releasing it also closes the window
   * switcher and the volume display. Releasing a volume key closes the
   * volume display. Neither changes anything else.
   */
  lemma KeyedSystem(s: Desk, scancode: Byte, pressed: bool, character: char,
                    read: Option<string>, writeOk: bool, screenW: int, screenH: int)
    ensures var r := Keyed(s, scancode, pressed, character, read, writeOk, screenW, screenH);
      (scancode == K_SUPER ==>
        r == s.(keys := r.keys) && r.keys.winKey == pressed &&
        r.keys.volumeValue == s.keys.volumeValue && r.keys.volumeToggle == s.keys.volumeToggle &&
        (pressed ==> r.keys == s.keys.(winKey := true)) &&
        (!pressed ==> !r.keys.winTabbing && !r.keys.volumeOsd)) &&
      (SystemKey(scancode) && scancode != K_SUPER && !pressed ==> r == s.(keys := s.keys.(volumeOsd := false))) &&
      (SystemKey(scancode) && scancode != K_SUPER && pressed ==>
        r == s.(keys := r.keys) && r.keys.winKey == s.keys.winKey && r.keys.winTabbing == s.keys.winTabbing)
  {
  }

  /**
   * Without the super key a key goes to the front window: first the
   * character typed, for a press of a key with one, then the key event
   * itself; no other window hears of it and nothing else changes.
   */
  lemma KeyedTyped(s: Desk, scancode: Byte, pressed: bool, character: char,
                   read: Option<string>, writeOk: bool, screenW: int, screenH: int)
    requires !SystemKey(scancode) && !s.keys.winKey && s.order != [] && s.order[0] in s.windows
    ensures var r := Keyed(s, scancode, pressed, character, read, writeOk, screenW, screenH);
      var w := s.windows[s.order[0]];
      var typed := if pressed && character != 0 as char then [TextInputEvent(character)] else [];
      r == s.(windows := s.windows[s.order[0] := w.(events := w.events + typed + [KeyEvent(character, scancode, pressed)])])
  {
    var id := s.order[0];
    var w := s.windows[id];
    var k := KeyEvent(character, scancode, pressed);
    var t := if pressed && character != 0 as char then Notify(s, id, TextInputEvent(character)) else s;
    var typed := if pressed && character != 0 as char then [TextInputEvent(character)] else [];
    if typed == [] {
      assert w.events + typed == w.events;
      assert s.windows[id := w.(events := w.events + typed)] == s.windows;
    }
    assert t == s.(windows := s.windows[id := w.(events := w.events + typed)]);
    assert Keyed(s, scancode, pressed, character, read, writeOk, screenW, screenH) == Notify(t, id, k);
    assert Notified(t.windows[id], k) == w.(events := w.events + typed + [k]);
  }

  /** Super and Tab opens the window switcher and sends the front window to the back. */
  lemma KeyedTab(s: Desk, character: char, read: Option<string>, writeOk: bool, screenW: int, screenH: int)
    requires s.keys.winKey
    ensures var r := Keyed(s, K_TAB, true, character, read, writeOk, screenW, screenH);
      r.keys == s.keys.(winTabbing := true) &&
      r == WinTabbed(s.(keys := r.keys)) &&
      (|s.order| > 1 ==> r.order == Rotated(s.order) && r.dragging == NoDrag) &&
      (|s.order| <= 1 ==> r == s.(keys := r.keys))
  {
    WinTabbedSpec(s.(keys := s.keys.(winTabbing := true)));
  }

  /**
   * With the super key held, a key that is no command goes to the window
   * with the least id, flagged as a super event.
   */
  lemma KeyedSuper(s: Desk, scancode: Byte, pressed: bool, character: char,
                   read: Option<string>, writeOk: bool, screenW: int, screenH: int)
    requires !SystemKey(scancode) && s.keys.winKey && s.windows.Keys != {}
    requires scancode !in {K_Q, K_TAB, K_BRACE_OPEN, K_BRACE_CLOSE, K_BACKSLASH, K_UP, K_DOWN, K_LEFT, K_RIGHT, K_C, K_X, K_V}
    ensures var r := Keyed(s, scancode, pressed, character, read, writeOk, screenW, screenH);
      var id := Least(s.windows.Keys);
      (forall j :: j in s.windows ==> id <= j) &&
      r == s.(windows := s.windows[id := Notified(s.windows[id], SuperEvent(character, scancode, pressed))]) &&
      SuperEvent(character, scancode, pressed).code == EVENT_KEY + SUPER_FLAG
  {
  }

  /**
   * Super and an arrow moves the front window, unless it is borderless, to
   * its grid-snapped place one step over, kept on screen, and tells it; the
   * window is redrawn where it was and where it is.
   */
  lemma ArrowMovedSpec(s: Desk, key: Arrow, screenW: int, screenH: int)
    requires s.order != [] && s.order[0] in s.windows && !s.windows[s.order[0]].style.borderless
    ensures var r := ArrowMoved(s, key, screenW, screenH);
      var w := s.windows[s.order[0]];
      var m := GridMoved(w, key, screenW, screenH);
      r.windows == s.windows[s.order[0] := Notified(m, MoveEvent(m.x, m.y))] &&
      r.windows[s.order[0]].events[|r.windows[s.order[0]].events| - 1] == MoveEvent(m.x, m.y) &&
      Covered(r.redraws, w.Body()) && Covered(r.redraws, m.Body()) &&
      (forall q :: Covered(s.redraws, q) ==> Covered(r.redraws, q))
  {
    var id := s.order[0];
    var m := GridMoved(s.windows[id], key, screenW, screenH);
    ScheduledWindowCovers(s.redraws, s.windows[id]);
    ScheduledWindowCovers(Repaint(s, id).redraws, Notified(m, MoveEvent(m.x, m.y)));
    CoalescedSpec(m.events, MoveEvent(m.x, m.y));
  }
}
