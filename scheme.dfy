// The window manager of src/scheme.rs: the table of client windows, their
// focus order and z-buffer, the pending redraw rectangles, the pointer and its
// drag state, the clipboard, the volume keys and window creation.
//
// The windows this file deals with are an older generation than the ones of
// src/window.rs, so they are modelled here as a record holding only the
// fields the scheme reads and writes.
module Scheme {
  import opened Helpers
  import opened Rects
  import opened Damage
  import opened ZSort
  import opened Events
  import opened Utf8
  import opened Text
  import opened Displays

  const TITLE_HEIGHT: int := 28
  const GRID_SIZE: int := 16
  /** `isize::MAX`: `next_id` wraps past it. */
  const ISIZE_MAX: int := 0x7FFF_FFFF_FFFF_FFFF

  /** The flags a window is created with. */
  datatype Style = Style(
    asynchronous: bool, borderless: bool, resizable: bool, transparent: bool, unclosable: bool, zorder: ZOrder)

  /** What the client and the scheme keep per window besides its place and its events. */
  datatype Settings = Settings(
    mouseCursor: bool, mouseGrab: bool, mouseRelative: bool, notifiedRead: bool, maps: nat, clipboardSeek: nat)

  /** A client window as the scheme sees it. */
  datatype SchemeWindow = SchemeWindow(
    x: int, y: int, width: nat, height: nat, scale: nat, title: string,
    style: Style, maxRestore: Option<Rect>, settings: Settings, events: seq<Event>)
  {
    /** `rect`: the client area. */
    function Body(): Rect { Rect(x, y, width, height) }

    /** `title_rect`: the bar above the client area, empty for a borderless window. */
    function TitleBar(): Rect {
      if style.borderless then Rect(x, y, 0, 0) else Rect(x, y - TITLE_HEIGHT * scale, width, TITLE_HEIGHT * scale)
    }

    function LeftBorder(): Rect {
      if style.resizable then Rect(x - 8 * scale, y, 8 * scale, height) else Nowhere
    }

    function RightBorder(): Rect {
      if style.resizable then Rect(x + width, y, 8 * scale, height) else Nowhere
    }

    function BottomBorder(): Rect {
      if style.resizable then Rect(x, y + height, width, 8 * scale) else Nowhere
    }

    function BottomLeftBorder(): Rect {
      if style.resizable then Rect(x - 8 * scale, y + height, 8 * scale, 8 * scale) else Nowhere
    }

    function BottomRightBorder(): Rect {
      if style.resizable then Rect(x + width, y + height, 8 * scale, 8 * scale) else Nowhere
    }

    predicate MaxContains(px: int, py: int) {
      !style.borderless && px >= Max(x + 6 * scale, x + width - 36 * scale) &&
      py >= y - TITLE_HEIGHT * scale && px < x + width - 18 * scale && py < y
    }

    predicate CloseContains(px: int, py: int) {
      !style.borderless && px >= Max(x + 6 * scale, x + width - 18 * scale) &&
      py >= y - TITLE_HEIGHT * scale && px < x + width && py < y
    }
  }

  /** `Window::new`: a visible, synchronous, normal-level window with no events. */
  function NewWindow(x: int, y: int, width: nat, height: nat, scale: nat): SchemeWindow {
    SchemeWindow(x, y, width, height, scale, [], Style(false, false, false, false, false, Normal), None,
                 Settings(true, false, false, false, 0, 0), [])
  }

  /** `window.event(e)`: the window queues the event, merging it with the last one where it can. */
  function Notified(w: SchemeWindow, e: Event): SchemeWindow {
    w.(events := Coalesced(w.events, e))
  }

  // The events the scheme itself generates, encoded as `orbclient` encodes them.
  function FocusEvent(focused: bool): Event { Event(EVENT_FOCUS, if focused then 1 else 0, 0) }
  function MoveEvent(x: int, y: int): Event { Event(EVENT_MOVE, x, y) }
  function ResizeEvent(w: int, h: int): Event { Event(EVENT_RESIZE, w, h) }
  const QUIT_EVENT: Event := Event(EVENT_QUIT, 0, 0)

  /** `as u32` on an `i32`: the same bits read as unsigned. */
  function AsU32(v: int): nat { v % 0x1_0000_0000 }

  // The pointer.

  datatype CursorKind = NoCursor | LeftPtr | BottomLeftCorner | BottomRightCorner | BottomSide | LeftSide | RightSide

  /** How far the image's top-left corner lies from the pointer, per kind. */
  function HotSpotOffset(kind: CursorKind, w: int, h: int): (int, int) {
    match kind
    case NoCursor => (0, 0)
    case LeftPtr => (0, 0)
    case BottomLeftCorner => (0, -h)
    case BottomRightCorner => (-w, -h)
    case BottomSide => (DivTrunc(-w, 2), -h)
    case LeftSide => (0, DivTrunc(-h, 2))
    case RightSide => (-w, DivTrunc(-h, 2))
  }

  /**
   * `cursor_rect`: where the cursor image of `kind`, `w` by `h`, is drawn for
   * the pointer at (cx, cy). Each kind puts its hot spot at a corner or at the
   * middle of an edge, so the pointer always lies on the image.
   */
  function CursorRect(kind: CursorKind, cx: int, cy: int, w: nat, h: nat): (r: Rect)
    ensures r.w == w && r.h == h && r.Contains(cx, cy)
    ensures kind == NoCursor || kind == LeftPtr ==> r.Left() == cx && r.Top() == cy
    ensures kind == BottomLeftCorner ==> r.Left() == cx && r.Bottom() == cy
    ensures kind == BottomRightCorner ==> r.Right() == cx && r.Bottom() == cy
    ensures kind == BottomSide ==> r.Bottom() == cy && r.Left() == cx - w / 2
    ensures kind == LeftSide ==> r.Left() == cx && r.Top() == cy - h / 2
    ensures kind == RightSide ==> r.Right() == cx && r.Top() == cy - h / 2
  {
    var off := HotSpotOffset(kind, w, h);
    Rect(cx + off.0, cy + off.1, w, h)
  }

  // Redraw bookkeeping.

  /** Both rectangles of a window scheduled, title bar first, as every handler does. */
  function ScheduledWindow(redraws: seq<Rect>, w: SchemeWindow): seq<Rect> {
    Scheduled(Scheduled(redraws, w.TitleBar()), w.Body())
  }

  /** After scheduling a window both its rectangles are covered and nothing covered before is lost. */
  lemma ScheduledWindowCovers(redraws: seq<Rect>, w: SchemeWindow)
    ensures var r := ScheduledWindow(redraws, w);
      Covered(r, w.TitleBar()) && Covered(r, w.Body()) &&
      (forall q :: Covered(redraws, q) ==> Covered(r, q)) &&
      |redraws| <= |r| <= |redraws| + 2
  {
    var r1 := Scheduled(redraws, w.TitleBar());
    ScheduledKeeps(redraws, w.TitleBar());
    ScheduledKeeps(r1, w.Body());
  }

  // The z-buffer.

  /** One z-buffer entry: `(id, zorder, index in order)`. */
  datatype ZSlot = ZSlot(id: nat, zorder: ZOrder, index: nat)

  function SlotLevel(s: ZSlot): ZOrder { s.zorder }

  /** The entries the loop of `rezbuffer` pushes: ids of `order` that name a window, with their index. */
  function Listed(order: seq<nat>, windows: map<nat, SchemeWindow>): seq<ZSlot>
  {
    if order == [] then []
    else
      var n := |order| - 1;
      Listed(order[..n], windows) +
        (if order[n] in windows then [ZSlot(order[n], windows[order[n]].style.zorder, n)] else [])
  }

  /** The z-buffer `rezbuffer` leaves behind. */
  function ZBufferOf(order: seq<nat>, windows: map<nat, SchemeWindow>): seq<ZSlot>
  {
    SortDesc(Listed(order, windows), SlotLevel)
  }

  /** A z-buffer entry describes position `index` of `order` and the window it names. */
  predicate SlotOf(order: seq<nat>, windows: map<nat, SchemeWindow>, e: ZSlot) {
    e.index < |order| && order[e.index] == e.id && e.id in windows && e.zorder == windows[e.id].style.zorder
  }

  /** The pushed entries are exactly the positions of `order` that name a window, by increasing index. */
  lemma {:induction false} ListedSpec(order: seq<nat>, windows: map<nat, SchemeWindow>)
    ensures forall e :: e in Listed(order, windows) <==> SlotOf(order, windows, e)
    ensures forall j, k :: 0 <= j < k < |Listed(order, windows)| ==>
      Listed(order, windows)[j].index < Listed(order, windows)[k].index
    ensures forall k :: 0 <= k < |Listed(order, windows)| ==> Listed(order, windows)[k].index < |order|
  {
    if order != [] {
      var n := |order| - 1;
      var init := order[..n];
      ListedSpec(init, windows);
      var l := Listed(init, windows);
      forall e ensures e in Listed(order, windows) <==> SlotOf(order, windows, e) {
        if e.index < n {
          assert order[e.index] == init[e.index];
        }
      }
    }
  }

  /**
   * `rezbuffer`: the entries are exactly the positions of `order` that name a
   * window, sorted by level with the highest first, and entries on the same
   * level keep their focus order.
   */
  lemma ZBufferSpec(order: seq<nat>, windows: map<nat, SchemeWindow>)
    ensures var zb := ZBufferOf(order, windows);
      SortedDesc(zb, SlotLevel) &&
      (forall e :: e in zb <==> SlotOf(order, windows, e)) &&
      (forall level :: Band(zb, SlotLevel, level) == Band(Listed(order, windows), SlotLevel, level))
  {
    var l := Listed(order, windows);
    SortDescSpec(l, SlotLevel);
    ListedSpec(order, windows);
    forall e ensures e in ZBufferOf(order, windows) <==> e in l {
      assert e in multiset(ZBufferOf(order, windows)) <==> e in multiset(l);
    }
  }

  // The clipboard. Every window keeps its own seek position into the one
  // shared clipboard.

  /**
   * `handle_clipboard_read` as written: it returns as many bytes as remain
   * after the window's seek position, up to `len`, and advances the position
   * by that much, but copies them from the start of the clipboard.
   */
  function ClipboardRead(clipboard: seq<Byte>, seek: nat, len: nat): (r: (seq<Byte>, nat))
    ensures |r.0| <= len && r.1 == seek + |r.0|
    ensures seek < |clipboard| ==> |r.0| == Min(len, |clipboard| - seek)
    ensures seek >= |clipboard| ==> r.0 == []
    ensures r.0 == clipboard[..|r.0|]
  {
    var n := if seek < |clipboard| then Min(len, |clipboard| - seek) else 0;
    (clipboard[..n], seek + n)
  }

  /**
   * Reading the clipboard in two steps gives its first bytes twice rather
   * than consecutive parts: the second read starts over at byte 0.
   */
  lemma ClipboardReadRepeats(clipboard: seq<Byte>, a: nat, b: nat)
    requires 0 < a && a + b <= |clipboard|
    ensures var (first, seek) := ClipboardRead(clipboard, 0, a);
      var (second, _) := ClipboardRead(clipboard, seek, b);
      first == clipboard[..a] && second == clipboard[..b]
  {
  }

  /** `handle_clipboard_write`: cut the clipboard at the window's position, then append the buffer. */
  function ClipboardWritten(clipboard: seq<Byte>, seek: nat, buf: seq<Byte>): (r: seq<Byte>)
    ensures |r| == Min(seek, |clipboard|) + |buf|
    ensures r[..Min(seek, |clipboard|)] == clipboard[..Min(seek, |clipboard|)]
    ensures r[Min(seek, |clipboard|)..] == buf
  {
    clipboard[..Min(seek, |clipboard|)] + buf
  }

  /** Writing from position 0 replaces the clipboard; reading it back from 0 returns what was written. */
  lemma ClipboardRoundTrip(clipboard: seq<Byte>, buf: seq<Byte>, len: nat)
    requires len >= |buf|
    ensures ClipboardWritten(clipboard, 0, buf) == buf
    ensures ClipboardRead(ClipboardWritten(clipboard, 0, buf), 0, len) == (buf, |buf|)
  {
    assert ClipboardWritten(clipboard, 0, buf) == buf;
    assert buf[..|buf|] == buf;
  }

  // The volume keys. Reading and writing `audio:volume` is left to the caller.

  datatype Volume = Down | Up | Toggle

  /** The new `(volume_value, volume_toggle)` for a key press, from the volume read back. */
  function VolumeStep(kind: Volume, value: int, toggle: int): (r: (int, int))
    ensures kind != Toggle ==> r.1 == toggle
    ensures kind == Down ==> 0 <= r.0 && (value >= 5 ==> r.0 == value - 5) && (value < 5 ==> r.0 == 0)
    ensures kind == Up ==> r.0 <= 100 && (value <= 95 ==> r.0 == value + 5) && (value > 95 ==> r.0 == 100)
    ensures kind == Toggle && value != 0 ==> r == (0, value)
    ensures kind == Toggle && value == 0 ==> r == (toggle, toggle)
  {
    match kind
    case Down => (Max(0, value - 5), toggle)
    case Up => (Min(100, value + 5), toggle)
    case Toggle => if value == 0 then (toggle, toggle) else (0, value)
  }

  /** Toggling twice mutes and then restores the volume that was set. */
  lemma VolumeToggleRestores(value: int, toggle: int)
    requires value != 0
    ensures var (muted, saved) := VolumeStep(Toggle, value, toggle);
      muted == 0 && VolumeStep(Toggle, muted, saved) == (value, value)
  {
  }

  // `win_tab`.

  /** The focus order after Win+Tab: the front window goes to the back. */
  function Rotated(order: seq<nat>): seq<nat>
    requires order != []
  {
    order[1..] + [order[0]]
  }

  /** `k` presses of Win+Tab on an order of more than one window. */
  function RotatedTimes(order: seq<nat>, k: nat): seq<nat>
    decreases k
  {
    if k == 0 || |order| <= 1 then order else RotatedTimes(Rotated(order), k - 1)
  }

  /** Each press keeps the same windows, brings the second one forward and sends the first one last. */
  lemma RotatedSpec(order: seq<nat>)
    requires |order| > 1
    ensures multiset(Rotated(order)) == multiset(order)
    ensures Rotated(order)[0] == order[1] && Rotated(order)[|order| - 1] == order[0]
  {
    assert order == [order[0]] + order[1..];
  }

  /** After `k` presses the order is the old one started `k` places in. */
  lemma {:induction false} RotatedShift(order: seq<nat>, k: nat)
    requires |order| > 1 && k <= |order|
    ensures RotatedTimes(order, k) == order[k..] + order[..k]
    decreases k
  {
    if k > 0 {
      var r := Rotated(order);
      RotatedShift(r, k - 1);
      assert r[k - 1..] == order[k..] + [order[0]];
      assert r[..k - 1] == order[1..k];
      assert order[..k] == [order[0]] + order[1..k];
    }
  }

  /** As many presses as there are windows bring the focus order back to where it was. */
  lemma RotatedCycle(order: seq<nat>)
    ensures RotatedTimes(order, |order|) == order
  {
    if |order| > 1 {
      RotatedShift(order, |order|);
    }
  }

  // Keyboard moves on the 16-pixel grid.

  datatype Arrow = ArrowLeft | ArrowRight | ArrowUp | ArrowDown

  /** `v -= v % 16`, with Rust's `%`: rounds toward zero to a multiple of 16. */
  function GridSnap(v: int): int { v - RemTrunc(v, GRID_SIZE) }

  lemma GridSnapSpec(v: int)
    ensures GridSnap(v) % GRID_SIZE == 0
    ensures v >= 0 ==> 0 <= GridSnap(v) <= v && v - GridSnap(v) < GRID_SIZE
    ensures v < 0 ==> v <= GridSnap(v) <= 0 && GridSnap(v) - v < GRID_SIZE
  {
  }

  /** `cmp::max(lo, cmp::min(hi, v))`. */
  function Clamp(lo: int, hi: int, v: int): (r: int)
    ensures lo <= r
    ensures lo <= hi ==> r <= hi
    ensures lo <= v <= hi ==> r == v
    ensures v < lo ==> r == lo
    ensures lo <= hi < v ==> r == hi
  {
    Max(lo, Min(hi, v))
  }

  /**
   * The position after an arrow key: snapped to the grid, moved one grid
   * step, then kept at least one grid step on a `screenW` by `screenH` screen.
   */
  function GridMoved(w: SchemeWindow, key: Arrow, screenW: int, screenH: int): SchemeWindow
  {
    var dx := if key == ArrowLeft then -GRID_SIZE else if key == ArrowRight then GRID_SIZE else 0;
    var dy := if key == ArrowUp then -GRID_SIZE else if key == ArrowDown then GRID_SIZE else 0;
    w.(x := Clamp(GRID_SIZE - w.width as int, screenW - GRID_SIZE, GridSnap(w.x) + dx),
       y := Clamp(GRID_SIZE - w.height as int, screenH - GRID_SIZE, GridSnap(w.y) + dy))
  }

  /**
   * An arrow move keeps at least one grid step of the window on screen, lands
   * on the grid unless the clamp moved it, changes only the position, and
   * leaves the other axis on its snapped place.
   */
  lemma GridMovedSpec(w: SchemeWindow, key: Arrow, screenW: int, screenH: int)
    ensures var m := GridMoved(w, key, screenW, screenH);
      m == w.(x := m.x, y := m.y) &&
      var loX, loY := GRID_SIZE - w.width as int, GRID_SIZE - w.height as int;
      loX <= m.x && loY <= m.y &&
      (loX <= screenW - GRID_SIZE ==> m.x <= screenW - GRID_SIZE) &&
      (loY <= screenH - GRID_SIZE ==> m.y <= screenH - GRID_SIZE) &&
      (loX < m.x < screenW - GRID_SIZE ==> m.x % GRID_SIZE == 0) &&
      (loY < m.y < screenH - GRID_SIZE ==> m.y % GRID_SIZE == 0) &&
      (key == ArrowUp || key == ArrowDown ==> m.x == Clamp(GRID_SIZE - w.width as int, screenW - GRID_SIZE, GridSnap(w.x))) &&
      (key == ArrowLeft || key == ArrowRight ==> m.y == Clamp(GRID_SIZE - w.height as int, screenH - GRID_SIZE, GridSnap(w.y)))
  {
    GridSnapSpec(w.x);
    GridSnapSpec(w.y);
  }
}
