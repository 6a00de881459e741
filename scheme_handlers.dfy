// The rest of src/scheme.rs over the same snapshot: relative pointer motion,
// creating a window, the per-window requests of the scheme, closing, the
// clipboard, and the dispatch of one input event.
module SchemeHandlers {
  import opened Helpers
  import opened Rects
  import opened Damage
  import opened ZSort
  import opened Events
  import opened Utf8
  import opened Displays
  import opened Scheme
  import opened SchemeState

  // `mouse_relative_event`.

  /** The last pixel column and row of a display. */
  function RightEdge(d: Display): int { ScreenRect(d).Right() - 1 }
  function BottomEdge(d: Display): int { ScreenRect(d).Bottom() - 1 }

  /** The display loop computing `max_x` or `max_y`: the largest edge, from 0. */
  function Reach(ds: seq<Display>, edge: Display -> int): (r: int)
    ensures r >= 0
    ensures forall j :: 0 <= j < |ds| ==> edge(ds[j]) <= r
    ensures r == 0 || exists j :: 0 <= j < |ds| && r == edge(ds[j])
  {
    if ds == [] then 0
    else
      var p := Reach(ds[..|ds| - 1], edge);
      assert forall j :: 0 <= j < |ds| - 1 ==> ds[..|ds| - 1][j] == ds[j];
      Max(p, edge(ds[|ds| - 1]))
  }

  /** The column `x` lies on display `d`. */
  predicate Spans(d: Display, x: int) { ScreenRect(d).Left() <= x <= RightEdge(d) }

  /**
   * The second display loop: each display whose columns hold `x` in turn
   * clamps `y` into its rows.
   */
  function SnappedY(ds: seq<Display>, x: int, y: int): int
  {
    if ds == [] then y
    else
      var d := ds[|ds| - 1];
      var p := SnappedY(ds[..|ds| - 1], x, y);
      if Spans(d, x) then Clamp(ScreenRect(d).Top(), BottomEdge(d), p) else p
  }

  /**
   * A display spanning the column lets the pointer stay only on its rows,
   * when no later display spans that column too; when no display spans the
   * column the row is left as it was.
   */
  lemma {:induction false} SnappedYSpec(ds: seq<Display>, x: int, y: int)
    ensures (forall j :: 0 <= j < |ds| ==> !Spans(ds[j], x)) ==> SnappedY(ds, x, y) == y
    ensures forall i ::
      (0 <= i < |ds| && Spans(ds[i], x) && ds[i].height > 0 && (forall j :: i < j < |ds| ==> !Spans(ds[j], x))) ==>
      ScreenRect(ds[i]).Top() <= SnappedY(ds, x, y) <= BottomEdge(ds[i])
  {
    if forall j :: 0 <= j < |ds| ==> !Spans(ds[j], x) {
      SnappedYUntouched(ds, x, y);
    }
    forall i | 0 <= i < |ds| && Spans(ds[i], x) && ds[i].height > 0 && (forall j :: i < j < |ds| ==> !Spans(ds[j], x))
      ensures ScreenRect(ds[i]).Top() <= SnappedY(ds, x, y) <= BottomEdge(ds[i])
    {
      SnappedYLast(ds, x, y, i);
    }
  }

  /** No display spans the column: the row is left alone. */
  lemma {:induction false} SnappedYUntouched(ds: seq<Display>, x: int, y: int)
    requires forall j :: 0 <= j < |ds| ==> !Spans(ds[j], x)
    ensures SnappedY(ds, x, y) == y
  {
    if ds != [] {
      var init := ds[..|ds| - 1];
      assert forall j :: 0 <= j < |init| ==> init[j] == ds[j];
      SnappedYUntouched(init, x, y);
    }
  }

  /** Display `i` is the last to span the column: the row ends up on its rows. */
  lemma {:induction false} SnappedYLast(ds: seq<Display>, x: int, y: int, i: nat)
    requires i < |ds| && Spans(ds[i], x) && ds[i].height > 0
    requires forall j :: i < j < |ds| ==> !Spans(ds[j], x)
    ensures ScreenRect(ds[i]).Top() <= SnappedY(ds, x, y) <= BottomEdge(ds[i])
  {
    var n := |ds| - 1;
    var init := ds[..n];
    if i < n {
      assert init[i] == ds[i];
      assert forall j :: i < j < |init| ==> init[j] == ds[j];
      SnappedYLast(init, x, y, i);
      assert !Spans(ds[n], x);
    }
  }

  /** Where relative motion puts the pointer when the front window does not take it. */
  function RelativeTarget(c: Pointer, ds: seq<Display>, dx: int, dy: int): (r: (int, int))
    ensures 0 <= r.0 <= Reach(ds, RightEdge)
    ensures r.1 == SnappedY(ds, r.0, Clamp(0, Reach(ds, BottomEdge), c.y + dy))
    ensures 0 <= c.x + dx <= Reach(ds, RightEdge) ==> r.0 == c.x + dx
  {
    var x := Clamp(0, Reach(ds, RightEdge), c.x + dx);
    (x, SnappedY(ds, x, Clamp(0, Reach(ds, BottomEdge), c.y + dy)))
  }

  /** The front window takes relative motion when it asked for it. */
  predicate TakesRelative(s: Desk) {
    s.order != [] && s.order[0] in s.windows && s.windows[s.order[0]].settings.mouseRelative
  }

  /**
   * `mouse_relative_event`: a front window that asked for relative motion is
   * sent it, and the cursor, hidden, is put in the window's centre; otherwise
   * the pointer moves by the motion, kept on the displays' columns and rows,
   * as `mouse_event` does.
   */
  function RelativeMoved(s: Desk, ds: seq<Display>, sizes: CursorSizes, dx: int, dy: int): (r: Desk)
    ensures TakesRelative(s) ==>
      var w := s.windows[s.order[0]];
      r.cursor == s.cursor.(kind := NoCursor, x := w.x + w.width / 2, y := w.y + w.height / 2) &&
      r.windows == s.windows[s.order[0] := Notified(w, RelativeEvent(dx, dy))] &&
      r.order == s.order && r.dragging == s.dragging
    ensures !TakesRelative(s) ==>
      0 <= r.cursor.x <= Reach(ds, RightEdge) &&
      (0 <= s.cursor.x + dx <= Reach(ds, RightEdge) ==> r.cursor.x == s.cursor.x + dx) &&
      r.cursor.y == SnappedY(ds, r.cursor.x, Clamp(0, Reach(ds, BottomEdge), s.cursor.y + dy)) &&
      r.order == s.order && r.windows.Keys == s.windows.Keys
  {
    if TakesRelative(s) then
      var w := s.windows[s.order[0]];
      CursorUpdated(Notify(s, s.order[0], RelativeEvent(dx, dy)), sizes, w.x + w.width / 2, w.y + w.height / 2, NoCursor)
    else
      var target := RelativeTarget(s.cursor, ds, dx, dy);
      PointerMoved(s, sizes, target.0, target.1)
  }

  // `window_new`.

  const ISIZE_MIN: int := -ISIZE_MAX - 1

  /** Two's-complement wrap-around of a 64-bit signed integer. */
  function WrapIsize(v: int): (r: int)
    ensures ISIZE_MIN <= r <= ISIZE_MAX
    ensures ISIZE_MIN <= v <= ISIZE_MAX ==> r == v
  {
    (v - ISIZE_MIN) % 0x1_0000_0000_0000_0000 + ISIZE_MIN
  }

  /** `next_id += 1`, wrapping, and reset to 1 once it has gone negative. */
  function NextIdAfter(n: int): int {
    var m := WrapIsize(n + 1);
    if m < 0 then 1 else m
  }

  /**
   * Ids count up from 1 and are handed out as they are; past `isize::MAX`
   * the counter wraps and starts over at 1, so it stays positive.
   */
  lemma NextIdAfterSpec(n: int)
    requires 1 <= n <= ISIZE_MAX
    ensures AsUsize(n) == n
    ensures 1 <= NextIdAfter(n) <= ISIZE_MAX
    ensures n < ISIZE_MAX ==> NextIdAfter(n) == n + 1
    ensures n == ISIZE_MAX ==> NextIdAfter(n) == 1
  {
    if n == ISIZE_MAX {
      assert WrapIsize(n + 1) == ISIZE_MIN;
    }
  }

  /** `next_id as usize`. */
  function AsUsize(n: int): nat { n % 0x1_0000_0000_0000_0000 }

  /**
   * Automatic placement: a window asked for at negative x and y is centred
   * on the screen, but never left of 0 nor above the title bar's height.
   */
  function Placed(x: int, y: int, width: int, height: int, screenW: int, screenH: int): (r: (int, int))
    ensures !(x < 0 && y < 0) ==> r == (x, y)
    ensures x < 0 && y < 0 ==> 0 <= r.0 && TITLE_HEIGHT <= r.1
    ensures x < 0 && y < 0 && width <= screenW ==> 2 * r.0 <= screenW - width <= 2 * r.0 + 1
    ensures x < 0 && y < 0 && height + 2 * TITLE_HEIGHT <= screenH ==> 2 * r.1 <= screenH - height <= 2 * r.1 + 1
  {
    if x < 0 && y < 0 then (Max(0, DivTrunc(screenW - width, 2)), Max(TITLE_HEIGHT, DivTrunc(screenH - height, 2)))
    else (x, y)
  }

  /** One flag character of `window_new`; any other character is ignored. */
  function WithCreateFlag(st: Style, c: char): (r: Style)
    ensures r.asynchronous == (st.asynchronous || c == 'a') && r.borderless == (st.borderless || c == 'l')
    ensures r.resizable == (st.resizable || c == 'r') && r.transparent == (st.transparent || c == 't')
    ensures r.unclosable == (st.unclosable || c == 'u')
    ensures r.zorder == (if c == 'b' then Back else if c == 'f' then Front else st.zorder)
  {
    match c
    case 'a' => st.(asynchronous := true)
    case 'b' => st.(zorder := Back)
    case 'f' => st.(zorder := Front)
    case 'l' => st.(borderless := true)
    case 'r' => st.(resizable := true)
    case 't' => st.(transparent := true)
    case 'u' => st.(unclosable := true)
    case _ => st
  }

  /** The flag loop of `window_new`, character by character. */
  function FlagsApplied(st: Style, flags: string): Style
  {
    if flags == [] then st else WithCreateFlag(FlagsApplied(st, flags[..|flags| - 1]), flags[|flags| - 1])
  }

  /** The characters that set the level of a window. */
  predicate Level(c: char) { c == 'b' || c == 'f' }

  /** Each of a, l, r, t, u turns its flag on when it appears anywhere, and only then. */
  lemma {:induction false} FlagsAppliedSwitches(st: Style, flags: string)
    ensures var r := FlagsApplied(st, flags);
      r.asynchronous == (st.asynchronous || 'a' in flags) &&
      r.borderless == (st.borderless || 'l' in flags) &&
      r.resizable == (st.resizable || 'r' in flags) &&
      r.transparent == (st.transparent || 't' in flags) &&
      r.unclosable == (st.unclosable || 'u' in flags)
  {
    if flags != [] {
      var n := |flags| - 1;
      var init := flags[..n];
      FlagsAppliedSwitches(st, init);
      assert flags == init + [flags[n]];
      assert forall c :: c in flags <==> c in init || c == flags[n];
    }
  }

  /** The level is the one the last b or f names, and left alone without either. */
  lemma {:induction false} FlagsAppliedLevel(st: Style, flags: string)
    ensures var r := FlagsApplied(st, flags);
      ((forall j :: 0 <= j < |flags| ==> !Level(flags[j])) ==> r.zorder == st.zorder) &&
      (forall i :: 0 <= i < |flags| && Level(flags[i]) && (forall j :: i < j < |flags| ==> !Level(flags[j])) ==>
        r.zorder == (if flags[i] == 'b' then Back else Front))
  {
    if flags != [] {
      var n := |flags| - 1;
      var init := flags[..n];
      FlagsAppliedLevel(st, init);
      assert forall j :: 0 <= j < n ==> init[j] == flags[j];
      forall i | 0 <= i < |flags| && Level(flags[i]) && (forall j :: i < j < |flags| ==> !Level(flags[j]))
        ensures FlagsApplied(st, flags).zorder == (if flags[i] == 'b' then Back else Front)
      {
        if i < n {
          assert !Level(flags[n]);
          assert forall j :: i < j < n ==> !Level(init[j]);
        }
      }
    }
  }

  /**
   * The window `window_new` builds: placed, flagged, titled, with the
   * scheme's scale.
   */
  function Built(x: int, y: int, width: nat, height: nat, scale: nat, flags: string, title: string): SchemeWindow {
    var w := NewWindow(x, y, width, height, scale);
    w.(title := title, style := FlagsApplied(w.style, flags))
  }

  /**
   * The new window inserted as `id`: the old front is redrawn, the new
   * window is scheduled and goes to the front of the focus order, or to the
   * back for a Back window.
   */
  function Inserted(s: Desk, id: nat, w: SchemeWindow): (r: Desk)
    ensures r == s.(order := r.order, redraws := r.redraws, windows := s.windows[id := w])
    ensures w.style.zorder == Back ==> r.order == s.order + [id]
    ensures w.style.zorder != Back ==> r.order == [id] + s.order
  {
    var t := if s.order != [] then Repaint(s, s.order[0]) else s;
    t.(redraws := ScheduledWindow(t.redraws, w),
       order := if w.style.zorder == Back then t.order + [id] else [id] + t.order,
       windows := t.windows[id := w])
  }

  /** The level a window gets from its creation flags. */
  function CreatedLevel(flags: string): ZOrder { FlagsApplied(NewWindow(0, 0, 0, 0, 0).style, flags).zorder }

  /**
   * `window_new`: the id is the current counter, the counter moves on, and
   * the window is inserted; `mouse_event` at the pointer's place then puts
   * the cursor right. The new window keeps the size asked for and joins the
   * focus order at the front, or at the back when created with the Back
   * level; the pointer stays where it was. It has its title, the scheme's
   * scale and the flags its creation string applies, and, unless a drag
   * left over from a window that had the same id moves it, the place
   * `Placed` gives. `screenW` and `screenH` are the size of the first
   * display's image, which `window_new` reads through `orb.image()`.
   */
  function Created(s: Desk, sizes: CursorSizes, scale: nat, screenW: int, screenH: int,
                   x: int, y: int, width: nat, height: nat, flags: string, title: string): (r: (Desk, nat))
    ensures r.1 == AsUsize(s.nextId) && r.0.nextId == NextIdAfter(s.nextId)
    ensures r.0.windows.Keys == s.windows.Keys + {r.1}
    ensures r.1 in r.0.windows && r.0.windows[r.1].width == width && r.0.windows[r.1].height == height
    ensures CreatedLevel(flags) == Back ==> r.0.order == s.order + [r.1]
    ensures CreatedLevel(flags) != Back ==> r.0.order == [r.1] + s.order
    ensures r.0.cursor.x == s.cursor.x && r.0.cursor.y == s.cursor.y
    ensures var w := r.0.windows[r.1];
      w.title == title && w.scale == scale && w.style == FlagsApplied(NewWindow(0, 0, 0, 0, 0).style, flags)
    ensures s.dragging.NoDrag? || s.dragging.id != r.1 ==>
      (r.0.windows[r.1].x, r.0.windows[r.1].y) == Placed(x, y, width, height, screenW, screenH)
  {
    var id := AsUsize(s.nextId);
    var p := Placed(x, y, width, height, screenW, screenH);
    var w := Built(p.0, p.1, width, height, scale, flags, title);
    assert w.style.zorder == CreatedLevel(flags);
    var t := Inserted(s.(nextId := NextIdAfter(s.nextId)), id, w);
    var u := PointerMoved(t, sizes, s.cursor.x, s.cursor.y);
    SizesSame(u.windows, t.windows);
    PointerMovedShifts(t, sizes, s.cursor.x, s.cursor.y, id);
    (u, id)
  }

  // The per-window requests. Each looks the id up first and answers EBADF,
  // changing nothing, when there is no such window.

  /**
   * `handle_window_read`: the oldest events, as many as the buffer holds or
   * as are queued, leave the queue in order.
   */
  function EventsRead(s: Desk, id: nat, len: nat): (r: (Desk, Result<seq<Event>>))
    ensures id !in s.windows ==> r == (s, Err(EBADF))
    ensures id in s.windows ==>
      r.1.Ok? && id in r.0.windows &&
      |r.1.value| == Min(len, |s.windows[id].events|) &&
      r.1.value + r.0.windows[id].events == s.windows[id].events &&
      r.0 == s.(windows := s.windows[id := s.windows[id].(events := r.0.windows[id].events)])
  {
    if id in s.windows then
      var w := s.windows[id];
      var n := Min(len, |w.events|);
      assert w.events[..n] + w.events[n..] == w.events;
      (s.(windows := s.windows[id := w.(events := w.events[n..])]), Ok(w.events[..n]))
    else (s, Err(EBADF))
  }

  /** Reading with room for the whole queue empties it. */
  lemma EventsReadDrains(s: Desk, id: nat, len: nat)
    requires id in s.windows && len >= |s.windows[id].events|
    ensures var r := EventsRead(s, id, len);
      r.1 == Ok(s.windows[id].events) && r.0.windows[id].events == []
  {
    var r := EventsRead(s, id, len);
    assert r.1.value + r.0.windows[id].events == s.windows[id].events;
    assert |r.1.value| == |s.windows[id].events|;
    assert r.0.windows[id].events == [];
    assert r.1.value == r.1.value + r.0.windows[id].events;
  }

  /** The four switches a client can turn on or off. */
  datatype Switch = Async | MouseCursor | MouseGrab | MouseRelative

  /** A window with one switch set. */
  function Switched(w: SchemeWindow, sw: Switch, on: bool): (v: SchemeWindow)
    ensures sw == Async ==> v == w.(style := w.style.(asynchronous := on))
    ensures sw == MouseCursor ==> v == w.(settings := w.settings.(mouseCursor := on))
    ensures sw == MouseGrab ==> v == w.(settings := w.settings.(mouseGrab := on))
    ensures sw == MouseRelative ==> v == w.(settings := w.settings.(mouseRelative := on))
  {
    match sw
    case Async => w.(style := w.style.(asynchronous := on))
    case MouseCursor => w.(settings := w.settings.(mouseCursor := on))
    case MouseGrab => w.(settings := w.settings.(mouseGrab := on))
    case MouseRelative => w.(settings := w.settings.(mouseRelative := on))
  }

  /** A window changed by a request that leaves everything else of the desk alone. */
  function Replaced<T>(s: Desk, id: nat, v: SchemeWindow, answer: T): (r: (Desk, Result<T>))
    ensures r == (s.(windows := s.windows[id := v]), Ok(answer))
  {
    (s.(windows := s.windows[id := v]), Ok(answer))
  }

  /** `handle_window_async` and the three `handle_window_mouse_*` setters. */
  function Set(s: Desk, id: nat, sw: Switch, on: bool): (r: (Desk, Result<()>))
    ensures id !in s.windows ==> r == (s, Err(EBADF))
    ensures id in s.windows ==>
      r == (s.(windows := s.windows[id := Switched(s.windows[id], sw, on)]), Ok(()))
  {
    if id in s.windows then Replaced(s, id, Switched(s.windows[id], sw, on), ()) else (s, Err(EBADF))
  }

  /** `handle_window_clear_notified`: the window may be announced again. */
  function NotifiedCleared(s: Desk, id: nat): (r: (Desk, Result<()>))
    ensures id !in s.windows ==> r == (s, Err(EBADF))
    ensures id in s.windows ==>
      r.1.Ok? && id in r.0.windows && !r.0.windows[id].settings.notifiedRead &&
      r.0 == s.(windows := s.windows[id := s.windows[id].(settings := r.0.windows[id].settings)]) &&
      r.0.windows[id].settings == s.windows[id].settings.(notifiedRead := false)
  {
    if id in s.windows then
      var w := s.windows[id];
      Replaced(s, id, w.(settings := w.settings.(notifiedRead := false)), ())
    else (s, Err(EBADF))
  }

  /** `unwrap_or`. */
  function Or(v: Option<int>, d: int): int { if v.Some? then v.value else d }

  /**
   * `handle_window_position`: the window is redrawn where it was, moved to
   * the coordinates given, each missing one kept, and redrawn where it is.
   */
  function Positioned(s: Desk, id: nat, x: Option<int>, y: Option<int>): (r: (Desk, Result<()>))
    ensures id !in s.windows ==> r == (s, Err(EBADF))
    ensures id in s.windows ==>
      r.1.Ok? && id in r.0.windows &&
      r.0.windows[id] == s.windows[id].(x := Or(x, s.windows[id].x), y := Or(y, s.windows[id].y)) &&
      r.0 == s.(redraws := r.0.redraws, windows := s.windows[id := r.0.windows[id]])
  {
    if id in s.windows then
      var w := s.windows[id];
      var v := w.(x := Or(x, w.x), y := Or(y, w.y));
      (s.(redraws := ScheduledWindow(ScheduledWindow(s.redraws, w), v), windows := s.windows[id := v]), Ok(()))
    else (s, Err(EBADF))
  }

  /** A moved window is redrawn both where it was and where it is, and nothing scheduled is lost. */
  lemma PositionedCovers(s: Desk, id: nat, x: Option<int>, y: Option<int>)
    requires id in s.windows
    ensures var r := Positioned(s, id, x, y).0;
      var w := s.windows[id];
      var v := r.windows[id];
      Covered(r.redraws, w.TitleBar()) && Covered(r.redraws, w.Body()) &&
      Covered(r.redraws, v.TitleBar()) && Covered(r.redraws, v.Body()) &&
      (forall q :: Covered(s.redraws, q) ==> Covered(r.redraws, q))
  {
    var w := s.windows[id];
    ScheduledWindowCovers(s.redraws, w);
    ScheduledWindowCovers(ScheduledWindow(s.redraws, w), w.(x := Or(x, w.x), y := Or(y, w.y)));
  }

  /**
   * `handle_window_resize`: like a move, but the size changes, each missing
   * dimension kept.
   */
  function Resized(s: Desk, id: nat, width: Option<nat>, height: Option<nat>): (r: (Desk, Result<()>))
    ensures id !in s.windows ==> r == (s, Err(EBADF))
    ensures id in s.windows ==>
      r.1.Ok? && id in r.0.windows &&
      r.0.windows[id] == s.windows[id].(width := if width.Some? then width.value else s.windows[id].width,
                                        height := if height.Some? then height.value else s.windows[id].height) &&
      r.0 == s.(redraws := r.0.redraws, windows := s.windows[id := r.0.windows[id]])
  {
    if id in s.windows then
      var w := s.windows[id];
      var v := w.(width := if width.Some? then width.value else w.width,
                  height := if height.Some? then height.value else w.height);
      (s.(redraws := ScheduledWindow(ScheduledWindow(s.redraws, w), v), windows := s.windows[id := v]), Ok(()))
    else (s, Err(EBADF))
  }

  /** A resized window is redrawn at both sizes, and nothing scheduled is lost. */
  lemma ResizedCovers(s: Desk, id: nat, width: Option<nat>, height: Option<nat>)
    requires id in s.windows
    ensures var r := Resized(s, id, width, height).0;
      var w := s.windows[id];
      var v := r.windows[id];
      Covered(r.redraws, w.TitleBar()) && Covered(r.redraws, w.Body()) &&
      Covered(r.redraws, v.TitleBar()) && Covered(r.redraws, v.Body()) &&
      (forall q :: Covered(s.redraws, q) ==> Covered(r.redraws, q))
  {
    var w := s.windows[id];
    ScheduledWindowCovers(s.redraws, w);
    ScheduledWindowCovers(ScheduledWindow(s.redraws, w),
      w.(width := if width.Some? then width.value else w.width, height := if height.Some? then height.value else w.height));
  }

  /** `handle_window_title`: the new title, and its bar redrawn. */
  function Titled(s: Desk, id: nat, title: string): (r: (Desk, Result<()>))
    ensures id !in s.windows ==> r == (s, Err(EBADF))
    ensures id in s.windows ==>
      r.1.Ok? && id in r.0.windows &&
      r.0.windows[id] == s.windows[id].(title := title) &&
      r.0 == s.(redraws := r.0.redraws, windows := s.windows[id := r.0.windows[id]]) &&
      Covered(r.0.redraws, r.0.windows[id].TitleBar()) &&
      (forall q :: Covered(s.redraws, q) ==> Covered(r.0.redraws, q))
  {
    if id in s.windows then
      var v := s.windows[id].(title := title);
      ScheduledKeeps(s.redraws, v.TitleBar());
      (s.(redraws := Scheduled(s.redraws, v.TitleBar()), windows := s.windows[id := v]), Ok(()))
    else (s, Err(EBADF))
  }

  /** `handle_window_map`: one more mapping held. The pixels handed out are not part of this model. */
  function Mapped(s: Desk, id: nat): (r: (Desk, Result<()>))
    ensures id !in s.windows ==> r == (s, Err(EBADF))
    ensures id in s.windows ==>
      r.1.Ok? && id in r.0.windows &&
      r.0.windows[id].settings.maps == s.windows[id].settings.maps + 1 &&
      r.0 == s.(windows := s.windows[id := s.windows[id].(settings := s.windows[id].settings.(maps := r.0.windows[id].settings.maps))])
  {
    if id in s.windows then
      var w := s.windows[id];
      Replaced(s, id, w.(settings := w.settings.(maps := w.settings.maps + 1)), ())
    else (s, Err(EBADF))
  }

  /**
   * `handle_window_unmap` as written: with mappings held it counts one more
   * rather than one fewer; with none it only warns.
   */
  function Unmapped(s: Desk, id: nat): (r: (Desk, Result<()>))
    ensures id !in s.windows ==> r == (s, Err(EBADF))
    ensures id in s.windows ==>
      r.1.Ok? && id in r.0.windows &&
      r.0.windows[id].settings.maps == (if s.windows[id].settings.maps > 0 then s.windows[id].settings.maps + 1 else 0) &&
      r.0 == s.(windows := s.windows[id := s.windows[id].(settings := s.windows[id].settings.(maps := r.0.windows[id].settings.maps))])
  {
    if id in s.windows then
      var w := s.windows[id];
      if w.settings.maps > 0 then Replaced(s, id, w.(settings := w.settings.(maps := w.settings.maps + 1)), ())
      else (s, Ok(()))
    else (s, Err(EBADF))
  }

  /** As written, a map followed by an unmap leaves two mappings counted, not none. */
  lemma MapUnmapCounts(s: Desk, id: nat)
    requires id in s.windows && s.windows[id].settings.maps == 0
    ensures var t := Unmapped(Mapped(s, id).0, id).0;
      t.windows[id].settings.maps == 2
  {
  }

  /** `handle_window_properties`: the window as it is; nothing changes. */
  function PropertiesOf(s: Desk, id: nat): (r: Result<SchemeWindow>)
    ensures id !in s.windows <==> r == Err(EBADF)
    ensures id in s.windows ==>
      r == Ok(s.windows[id])
  {
    if id in s.windows then Ok(s.windows[id]) else Err(EBADF)
  }

  /** `handle_window_sync`: the client area is redrawn. */
  function Synced(s: Desk, id: nat): (r: (Desk, Result<nat>))
    ensures id !in s.windows ==> r == (s, Err(EBADF))
    ensures id in s.windows ==>
      r.1 == Ok(0) && r.0 == s.(redraws := r.0.redraws) &&
      Covered(r.0.redraws, s.windows[id].Body()) &&
      (forall q :: Covered(s.redraws, q) ==> Covered(r.0.redraws, q)) &&
      |s.redraws| <= |r.0.redraws| <= |s.redraws| + 1
  {
    if id in s.windows then
      ScheduledKeeps(s.redraws, s.windows[id].Body());
      (s.(redraws := Scheduled(s.redraws, s.windows[id].Body())), Ok(0))
    else (s, Err(EBADF))
  }

  /** The focus order replaced, and its new front, if it is a window, redrawn. */
  function Refronted(s: Desk, order: seq<nat>): (r: Desk)
    ensures r == s.(order := order, redraws := r.redraws)
    ensures forall q :: Covered(s.redraws, q) ==> Covered(r.redraws, q)
  {
    if order != [] && order[0] in s.windows then
      ScheduledWindowCovers(s.redraws, s.windows[order[0]]);
      s.(order := order, redraws := ScheduledWindow(s.redraws, s.windows[order[0]]))
    else s.(order := order)
  }

  /**
   * The first half of `handle_window_close`: the id leaves the focus order,
   * the new front is redrawn, and the window, if there is one, is removed
   * and redrawn where it was.
   */
  function Removed(s: Desk, id: nat): (r: (Desk, Result<nat>))
    ensures r.0 == s.(order := RemoveAll(s.order, id), redraws := r.0.redraws, windows := s.windows - {id})
    ensures r.1 == (if id in s.windows then Ok(0) else Err(EBADF))
    ensures forall q :: Covered(s.redraws, q) ==> Covered(r.0.redraws, q)
    ensures id in s.windows ==> Covered(r.0.redraws, s.windows[id].TitleBar()) && Covered(r.0.redraws, s.windows[id].Body())
  {
    var t := Refronted(s, RemoveAll(s.order, id));
    if id in s.windows then
      ScheduledWindowCovers(t.redraws, s.windows[id]);
      (t.(redraws := ScheduledWindow(t.redraws, s.windows[id]), windows := s.windows - {id}), Ok(0))
    else
      assert s.windows - {id} == s.windows;
      (t, Err(EBADF))
  }

  /**
   * `handle_window_close`: the window goes and `mouse_event` at the pointer's
   * place puts the cursor and any drag right; EBADF when there was no such
   * window, the rest happening all the same.
   */
  function Closed(s: Desk, sizes: CursorSizes, id: nat): (r: (Desk, Result<nat>))
    ensures r.1 == (if id in s.windows then Ok(0) else Err(EBADF))
    ensures r.0.order == RemoveAll(s.order, id) && id !in r.0.order
    ensures r.0.windows.Keys == s.windows.Keys - {id}
    ensures forall j :: j in r.0.windows ==>
      r.0.windows[j].width == s.windows[j].width && r.0.windows[j].height == s.windows[j].height
    ensures r.0.cursor.x == s.cursor.x && r.0.cursor.y == s.cursor.y
    ensures r.0.clipboard == s.clipboard && r.0.nextId == s.nextId && r.0.keys == s.keys
    ensures forall q :: Covered(s.redraws, q) ==> Covered(r.0.redraws, q)
    ensures id in s.windows ==> Covered(r.0.redraws, s.windows[id].TitleBar()) && Covered(r.0.redraws, s.windows[id].Body())
  {
    var (t, res) := Removed(s, id);
    PointerMovedKeeps(t, sizes, s.cursor.x, s.cursor.y);
    SizesSame(PointerMoved(t, sizes, s.cursor.x, s.cursor.y).windows, t.windows);
    (PointerMoved(t, sizes, s.cursor.x, s.cursor.y), res)
  }

  /** Closing keeps every other window in the focus order, in its place relative to the others. */
  lemma ClosedOrder(s: Desk, sizes: CursorSizes, id: nat)
    ensures var r := Closed(s, sizes, id).0;
      multiset(r.order) == multiset(s.order)[id := 0] && IsSubseq(r.order, s.order) &&
      (id !in s.order ==> r.order == s.order)
  {
    RemoveAllSpec(s.order, id);
  }

  // The clipboard requests. The window's seek position is its clipboard handle's.

  /** The window with its clipboard position moved. */
  function Sought(w: SchemeWindow, seek: nat): SchemeWindow {
    w.(settings := w.settings.(clipboardSeek := seek))
  }

  /** `handle_clipboard_new`: the position goes back to 0 and the handle is the window's id. */
  function ClipboardOpened(s: Desk, id: nat): (r: (Desk, Result<nat>))
    ensures id !in s.windows ==> r == (s, Err(EBADF))
    ensures id in s.windows ==>
      r == (s.(windows := s.windows[id := Sought(s.windows[id], 0)]), Ok(id))
  {
    if id in s.windows then Replaced(s, id, Sought(s.windows[id], 0), id) else (s, Err(EBADF))
  }

  /** `handle_clipboard_read`, with the copy from the clipboard's start as written. */
  function ClipboardReadBy(s: Desk, id: nat, len: nat): (r: (Desk, Result<seq<Byte>>))
    ensures id !in s.windows ==> r == (s, Err(EBADF))
    ensures id in s.windows ==>
      var seek := s.windows[id].settings.clipboardSeek;
      r.1.Ok? && |r.1.value| <= len && |r.1.value| <= |s.clipboard| && r.1.value == s.clipboard[..|r.1.value|] &&
      (seek < |s.clipboard| ==> |r.1.value| == Min(len, |s.clipboard| - seek)) &&
      (seek >= |s.clipboard| ==> r.1.value == []) &&
      r.0 == s.(windows := s.windows[id := Sought(s.windows[id], seek + |r.1.value|)])
  {
    if id in s.windows then
      var (bytes, seek) := ClipboardRead(s.clipboard, s.windows[id].settings.clipboardSeek, len);
      Replaced(s, id, Sought(s.windows[id], seek), bytes)
    else (s, Err(EBADF))
  }

  /**
   * `handle_clipboard_write`: the clipboard is cut at the window's position
   * and the buffer appended; the position moves past it, and the answer is
   * the buffer's length.
   */
  function ClipboardWrittenBy(s: Desk, id: nat, buf: seq<Byte>): (r: (Desk, Result<nat>))
    ensures id !in s.windows ==> r == (s, Err(EBADF))
    ensures id in s.windows ==>
      var seek := s.windows[id].settings.clipboardSeek;
      r.1 == Ok(|buf|) &&
      r.0 == s.(clipboard := r.0.clipboard, windows := s.windows[id := Sought(s.windows[id], seek + |buf|)]) &&
      r.0.clipboard == s.clipboard[..Min(seek, |s.clipboard|)] + buf
  {
    if id in s.windows then
      var seek := s.windows[id].settings.clipboardSeek;
      var c := ClipboardWritten(s.clipboard, seek, buf);
      assert c == c[..Min(seek, |s.clipboard|)] + c[Min(seek, |s.clipboard|)..];
      var len: nat := |buf|;
      (s.(clipboard := c, windows := s.windows[id := Sought(s.windows[id], seek + |buf|)]), Ok(len))
    else (s, Err(EBADF))
  }

  /** `handle_clipboard_close`: nothing to release; EBADF for an unknown id. */
  function ClipboardClosed(s: Desk, id: nat): (r: Result<nat>)
    ensures r == (if id in s.windows then Ok(0) else Err(EBADF))
  {
    if id in s.windows then Ok(0) else Err(EBADF)
  }

  /**
   * A window that opens the clipboard, writes a buffer and opens it again
   * reads back what it wrote, whatever the clipboard held before.
   */
  lemma ClipboardWriteRead(s: Desk, id: nat, buf: seq<Byte>)
    requires id in s.windows
    ensures var t := ClipboardWrittenBy(ClipboardOpened(s, id).0, id, buf).0;
      ClipboardReadBy(ClipboardOpened(t, id).0, id, |buf|).1 == Ok(buf)
  {
    ClipboardRoundTrip(s.clipboard, buf, |buf|);
  }

  // The input events, and the announcements after them.

  function ScreenEvent(width: int, height: int): Event { Event(EVENT_SCREEN, AsU32(width), AsU32(height)) }

  /** Every window told of one event. */
  function Broadcast(ws: map<nat, SchemeWindow>, e: Event): (r: map<nat, SchemeWindow>)
    ensures r.Keys == ws.Keys && forall j :: j in ws ==> r[j] == Notified(ws[j], e)
  {
    map j | j in ws :: Notified(ws[j], e)
  }

  /**
   * `resize_event`: the first display is remapped at `width` by `height`
   * (`ok` says whether mapping succeeded), then its screen rect is redrawn
   * and every window is told the size the display has afterwards, which is
   * the old size when the remap failed.
   */
  function ScreenResized(s: Desk, first: Display, width: nat, height: nat, ok: bool): (r: Desk)
    ensures r == s.(redraws := r.redraws, windows := r.windows)
    ensures var d := Remapped(first, width, height, ok);
      r.windows.Keys == s.windows.Keys &&
      (forall j :: j in s.windows ==> r.windows[j] == Notified(s.windows[j], ScreenEvent(d.width, d.height))) &&
      Covered(r.redraws, ScreenRect(d))
    ensures ok ==> forall j :: j in s.windows ==> r.windows[j] == Notified(s.windows[j], ScreenEvent(width, height))
    ensures !ok ==> forall j :: j in s.windows ==> r.windows[j] == Notified(s.windows[j], ScreenEvent(first.width, first.height))
    ensures forall q :: Covered(s.redraws, q) ==> Covered(r.redraws, q)
  {
    var d := Remapped(first, width, height, ok);
    ScheduledKeeps(s.redraws, ScreenRect(d));
    s.(redraws := Scheduled(s.redraws, ScreenRect(d)), windows := Broadcast(s.windows, ScreenEvent(d.width, d.height)))
  }

  /** A scroll goes to the window of the first z-buffer entry, if it exists, and to no other. */
  function Scrolled(s: Desk, e: Event): (r: Desk)
    ensures s.zbuffer == [] || s.zbuffer[0].id !in s.windows ==> r == s
    ensures s.zbuffer != [] && s.zbuffer[0].id in s.windows ==>
      r == s.(windows := s.windows[s.zbuffer[0].id := Notified(s.windows[s.zbuffer[0].id], e)])
  {
    if s.zbuffer != [] then Notify(s, s.zbuffer[0].id, e) else s
  }

  /** What the event loop hands the scheme. */
  datatype Input =
    | KeyInput(scancode: Byte, pressed: bool, character: char)
    | MouseInput(x: int, y: int)
    | RelativeInput(dx: int, dy: int)
    | ButtonInput(left: bool, middle: bool, right: bool)
    | ScrollInput(scroll: Event)
    | ResizeInput(width: nat, height: nat)
    | OtherInput

  /**
   * What the scheme learns from outside while it handles an event: the
   * displays, the cursor images' sizes, the screen's size, what reading
   * and writing `audio:volume` gave, and whether remapping the first display
   * at a new size succeeds.
   */
  datatype Surroundings = Surroundings(
    displays: seq<Display>, sizes: CursorSizes, screenW: int, screenH: int, volumeRead: Option<string>, volumeWriteOk: bool,
    remapOk: bool)

  /** `rezbuffer`, on the snapshot. */
  function Rezbuffered(s: Desk): (r: Desk)
    ensures r == s.(zbuffer := ZBufferOf(s.order, s.windows))
  {
    s.(zbuffer := ZBufferOf(s.order, s.windows))
  }

  /**
   * `event`: the z-buffer is rebuilt, then the event goes to its handler; an
   * unexpected event is only logged.
   */
  function Dispatched(s: Desk, env: Surroundings, input: Input): (r: Desk)
    requires env.displays != []
  {
    var t := Rezbuffered(s);
    match input
    case KeyInput(scancode, pressed, character) =>
      Keyed(t, scancode, pressed, character, env.volumeRead, env.volumeWriteOk, env.screenW, env.screenH)
    case MouseInput(x, y) => PointerMoved(t, env.sizes, x, y)
    case RelativeInput(dx, dy) => RelativeMoved(t, env.displays, env.sizes, dx, dy)
    case ButtonInput(left, middle, right) => Pressed(t, env.displays, left, middle, right)
    case ScrollInput(e) => Scrolled(t, e)
    case ResizeInput(width, height) => ScreenResized(t, env.displays[0], width, height, env.remapOk)
    case OtherInput => t
  }

  /**
   * Because `event` rebuilds the z-buffer first, a button press finds the
   * window under the pointer through an entry that describes its place in
   * the focus order: the order stays a permutation, a background window
   * keeps its place, and a fresh left press brings any other to the front.
   */
  lemma DispatchedPress(s: Desk, env: Surroundings, left: bool, middle: bool, right: bool)
    requires env.displays != [] && s.dragging.NoDrag?
    ensures var r := Dispatched(s, env, ButtonInput(left, middle, right));
      var t := Rezbuffered(s);
      var hit := ProbeFrom(t.zbuffer, s.windows, s.cursor.x, s.cursor.y, 0);
      (hit.None? ==> r.order == s.order) &&
      (hit.Some? ==>
        var id := t.zbuffer[hit.value].id;
        id in s.windows &&
        multiset(r.order) == multiset(s.order) &&
        (s.windows[id].style.zorder == Back ==> r.order == s.order) &&
        (LeftPress(s, left) && s.windows[id].style.zorder != Back ==> r.order[0] == id))
  {
    var t := Rezbuffered(s);
    ZBufferSpec(s.order, s.windows);
    var hit := ProbeFrom(t.zbuffer, s.windows, s.cursor.x, s.cursor.y, 0);
    if hit.Some? {
      assert t.zbuffer[hit.value] in t.zbuffer;
    }
    PressedFocus(t, env.displays, left, middle, right);
  }

  /** A window with events is announced when it has not been yet, or every time when it is asynchronous. */
  predicate Announces(w: SchemeWindow) {
    w.events != [] && (!w.settings.notifiedRead || w.style.asynchronous)
  }

  /** The ids `display_event` and `scheme_event` write an event-read packet for. */
  function Announcements(ws: map<nat, SchemeWindow>): set<nat> {
    set j | j in ws && Announces(ws[j])
  }

  /**
   * One step of the loop after the events: an announced window is marked as
   * such, a window with no events is unmarked, and any other stays as it was.
   */
  function AnnouncedOne(w: SchemeWindow): (v: SchemeWindow)
    ensures v == w.(settings := w.settings.(notifiedRead := w.events != []))
  {
    if Announces(w) then w.(settings := w.settings.(notifiedRead := true))
    else if w.events == [] then w.(settings := w.settings.(notifiedRead := false))
    else w
  }

  /** The loop after the events, over every window: each is marked exactly when it has events. */
  function Announced(ws: map<nat, SchemeWindow>): (r: map<nat, SchemeWindow>)
    ensures r.Keys == ws.Keys
    ensures forall j :: j in ws ==> r[j] == AnnouncedOne(ws[j])
  {
    map j | j in ws :: AnnouncedOne(ws[j])
  }

  /**
   * A synchronous window is announced once for the events it has: until it
   * reads them, or clears the mark, the next round announces only the
   * asynchronous windows.
   */
  lemma AnnouncedOnce(ws: map<nat, SchemeWindow>)
    ensures Announcements(Announced(ws)) == set j | j in ws && ws[j].events != [] && ws[j].style.asynchronous
  {
    var r := Announced(ws);
    forall j | j in ws ensures j in Announcements(r) <==> ws[j].events != [] && ws[j].style.asynchronous {
      assert r[j].events == ws[j].events && r[j].style == ws[j].style;
    }
  }
}
