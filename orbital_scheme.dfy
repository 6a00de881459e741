// The `OrbitalScheme` object of src/scheme.rs, whose methods update its
// fields in place. Each method is proved to leave the object in the state the
// snapshot functions of Scheme, SchemeState and SchemeHandlers describe, so
// what is proved about those functions holds of the object.
module SchemeServer {
  import opened Helpers
  import opened Rects
  import opened Damage
  import opened ZSort
  import opened Events
  import opened Utf8
  import opened Displays
  import opened Scheme
  import opened SchemeState
  import opened SchemeHandlers

  /** `scale` of `OrbitalScheme::new`: the largest display scale, at least 1. */
  function MaxScale(ds: seq<Display>): (r: nat)
    ensures r >= 1
    ensures forall j :: 0 <= j < |ds| ==> ds[j].scale <= r
    ensures r == 1 || exists j :: 0 <= j < |ds| && r == ds[j].scale
  {
    if ds == [] then 1
    else
      var p := MaxScale(ds[..|ds| - 1]);
      assert forall j :: 0 <= j < |ds| - 1 ==> ds[..|ds| - 1][j] == ds[j];
      if ds[|ds| - 1].scale > p then ds[|ds| - 1].scale else p
  }

  /** The flag loop of `window_new`. */
  method ApplyFlags(init: Style, flags: string) returns (style: Style)
    ensures style == FlagsApplied(init, flags)
  {
    style := init;
    var i := 0;
    while i < |flags|
      invariant 0 <= i <= |flags|
      invariant style == FlagsApplied(init, flags[..i])
    {
      assert flags[..i + 1][..i] == flags[..i];
      match flags[i] {
        case 'a' => style := style.(asynchronous := true);
        case 'b' => style := style.(zorder := Back);
        case 'f' => style := style.(zorder := Front);
        case 'l' => style := style.(borderless := true);
        case 'r' => style := style.(resizable := true);
        case 't' => style := style.(transparent := true);
        case 'u' => style := style.(unclosable := true);
        case _ =>
      }
      i := i + 1;
    }
    assert flags[..i] == flags;
  }

  /** The windows after the announcing loop has visited all but `pending`. */
  function AnnouncedExcept(ws: map<nat, SchemeWindow>, pending: set<nat>): map<nat, SchemeWindow> {
    map j | j in ws :: if j in pending then ws[j] else AnnouncedOne(ws[j])
  }

  predicate Below(id: nat, pending: set<nat>) {
    forall j :: j in pending ==> id < j
  }

  /** Visiting the least pending window keeps the loop's invariants. */
  lemma AnnouncedStep(ws: map<nat, SchemeWindow>, pending: set<nat>, id: nat)
    requires pending <= ws.Keys && id in pending && forall j :: j in pending ==> id <= j
    ensures AnnouncedExcept(ws, pending)[id := AnnouncedOne(ws[id])] == AnnouncedExcept(ws, pending - {id})
    ensures id in AnnouncedExcept(ws, pending) && AnnouncedExcept(ws, pending)[id] == ws[id]
    ensures (id in Announcements(ws)) == Announces(ws[id])
    ensures Below(id, pending - {id})
    ensures pending == {id} ==> AnnouncedExcept(ws, pending - {id}) == Announced(ws)
  {
  }

  lemma AnnouncedStart(ws: map<nat, SchemeWindow>)
    ensures AnnouncedExcept(ws, ws.Keys) == ws
  {
  }

  /**
   * The loop of `display_event` and `scheme_event` over the windows in
   * ascending id order; it returns the updated table and the ids it writes
   * an event-read packet for, in that order.
   */
  method AnnounceAll(ws: map<nat, SchemeWindow>) returns (table: map<nat, SchemeWindow>, ids: seq<nat>)
    ensures table == Announced(ws)
    ensures forall j :: j in ids <==> j in Announcements(ws)
    ensures forall k :: 0 <= k < |ids| - 1 ==> ids[k] < ids[k + 1]
  {
    table := ws;
    var pending := table.Keys;
    ids := [];
    AnnouncedStart(ws);
    while pending != {}
      invariant pending <= ws.Keys
      invariant table == AnnouncedExcept(ws, pending)
      invariant forall j :: j in ids <==> j in Announcements(ws) && j !in pending
      invariant ids != [] ==> Below(ids[|ids| - 1], pending)
      invariant forall k :: 0 <= k < |ids| - 1 ==> ids[k] < ids[k + 1]
      decreases |pending|
    {
      var id := Least(pending);
      AnnouncedStep(ws, pending, id);
      var w := table[id];
      if Announces(w) {
        table := table[id := w.(settings := w.settings.(notifiedRead := true))];
        ids := ids + [id];
      } else if w.events == [] {
        table := table[id := w.(settings := w.settings.(notifiedRead := false))];
      }
      pending := pending - {id};
    }
  }

  class OrbitalScheme {
    var cursor: Pointer
    var dragging: DragMode
    var hover: Option<nat>
    var keys: Keys
    var nextId: int
    var order: seq<nat>
    var zbuffer: seq<ZSlot>
    var windows: map<nat, SchemeWindow>
    var redraws: seq<Rect>
    var clipboard: seq<Byte>
    const scale: nat
    /** The sizes of the cursor images loaded at start-up. */
    const sizes: CursorSizes

    /** The fields as one value, the state the snapshot functions speak of. */
    function Snapshot(): Desk
      reads this
    {
      Desk(cursor, dragging, hover, keys, nextId, order, zbuffer, windows, redraws, clipboard)
    }

    /** The id counter stays in the range `window_new` keeps it in. */
    predicate Valid()
      reads this
    {
      1 <= nextId <= ISIZE_MAX
    }

    /**
     * `OrbitalScheme::new`: one redraw per display, its whole screen, and the
     * largest display scale; the pointer at the origin with the arrow cursor,
     * nothing dragged, pressed or open, and ids starting at 1.
     */
    constructor (displays: seq<Display>, cursorSizes: CursorSizes)
      ensures Valid()
      ensures |redraws| == |displays| && forall i :: 0 <= i < |displays| ==> redraws[i] == ScreenRect(displays[i])
      ensures scale == MaxScale(displays) && sizes == cursorSizes
      ensures cursor == Pointer(LeftPtr, 0, 0, false, false, false) && dragging == NoDrag && hover == None
      ensures keys == Keys(false, false, 0, 0, false) && nextId == 1
      ensures order == [] && zbuffer == [] && windows == map[] && clipboard == []
    {
      var rects: seq<Rect> := [];
      var s: nat := 1;
      var i := 0;
      while i < |displays|
        invariant 0 <= i <= |displays|
        invariant |rects| == i && forall k :: 0 <= k < i ==> rects[k] == ScreenRect(displays[k])
        invariant s == MaxScale(displays[..i])
      {
        assert displays[..i + 1][..i] == displays[..i];
        rects := rects + [ScreenRect(displays[i])];
        s := if displays[i].scale > s then displays[i].scale else s;
        i := i + 1;
      }
      assert displays[..i] == displays;
      cursor := Pointer(LeftPtr, 0, 0, false, false, false);
      dragging := NoDrag;
      hover := None;
      keys := Keys(false, false, 0, 0, false);
      nextId := 1;
      order := [];
      zbuffer := [];
      windows := map[];
      redraws := rects;
      clipboard := [];
      scale := s;
      sizes := cursorSizes;
    }

    /** The object set to a state a snapshot function computed. */
    method Restore(d: Desk)
      modifies this
      ensures Snapshot() == d
    {
      cursor, dragging, hover, keys, nextId := d.cursor, d.dragging, d.hover, d.keys, d.nextId;
      order, zbuffer, windows, redraws, clipboard := d.order, d.zbuffer, d.windows, d.redraws, d.clipboard;
    }

    /** `schedule` on the object's redraw list. */
    method ScheduleRect(request: Rect)
      modifies this`redraws
      ensures redraws == Scheduled(old(redraws), request)
    {
      redraws := Schedule(redraws, request);
    }

    /** The title bar and then the body of a window scheduled. */
    method ScheduleWindow(w: SchemeWindow)
      modifies this`redraws
      ensures redraws == ScheduledWindow(old(redraws), w)
    {
      ScheduleRect(w.TitleBar());
      ScheduleRect(w.Body());
    }

    /** `rezbuffer`: the loop pushing one entry per listed window, then the stable sort. */
    method Rezbuffer()
      modifies this`zbuffer
      ensures Snapshot() == Rezbuffered(old(Snapshot()))
    {
      zbuffer := [];
      var i := 0;
      while i < |order|
        invariant 0 <= i <= |order|
        invariant zbuffer == Listed(order[..i], windows)
      {
        assert order[..i + 1][..i] == order[..i];
        var id := order[i];
        if id in windows {
          zbuffer := zbuffer + [ZSlot(id, windows[id].style.zorder, i)];
        }
        i := i + 1;
      }
      assert order[..i] == order;
      zbuffer := SortDesc(zbuffer, SlotLevel);
    }

    /** `handle_window_read`: `Window::read` pops from the queue while the buffer has room. */
    method WindowRead(id: nat, len: nat) returns (result: Result<seq<Event>>)
      modifies this`windows
      ensures (Snapshot(), result) == EventsRead(old(Snapshot()), id, len)
    {
      if id !in windows {
        return Err(EBADF);
      }
      var w := windows[id];
      var queue := w.events;
      var read: seq<Event> := [];
      var i := 0;
      while i < len
        invariant 0 <= i <= len && i <= |w.events|
        invariant read == w.events[..i] && queue == w.events[i..]
      {
        if queue == [] {
          break;
        }
        read := read + [queue[0]];
        queue := queue[1..];
        i := i + 1;
      }
      windows := windows[id := w.(events := queue)];
      result := Ok(read);
    }

    /** `handle_window_async` and `handle_window_mouse_cursor`/`_grab`/`_relative`. */
    method SetSwitch(id: nat, sw: Switch, on: bool) returns (result: Result<()>)
      modifies this`windows
      ensures (Snapshot(), result) == Set(old(Snapshot()), id, sw, on)
    {
      if id in windows {
        windows := windows[id := Switched(windows[id], sw, on)];
        result := Ok(());
      } else {
        result := Err(EBADF);
      }
    }

    /** `handle_window_clear_notified`. */
    method ClearNotified(id: nat) returns (result: Result<()>)
      modifies this`windows
      ensures (Snapshot(), result) == NotifiedCleared(old(Snapshot()), id)
    {
      if id in windows {
        var w := windows[id];
        windows := windows[id := w.(settings := w.settings.(notifiedRead := false))];
        result := Ok(());
      } else {
        result := Err(EBADF);
      }
    }

    /** `handle_window_position`. */
    method Position(id: nat, x: Option<int>, y: Option<int>) returns (result: Result<()>)
      modifies this`windows, this`redraws
      ensures (Snapshot(), result) == Positioned(old(Snapshot()), id, x, y)
    {
      if id !in windows {
        return Err(EBADF);
      }
      var w := windows[id];
      ScheduleWindow(w);
      w := w.(x := Or(x, w.x), y := Or(y, w.y));
      ScheduleWindow(w);
      windows := windows[id := w];
      result := Ok(());
    }

    /** `handle_window_resize`. */
    method Resize(id: nat, width: Option<nat>, height: Option<nat>) returns (result: Result<()>)
      modifies this`windows, this`redraws
      ensures (Snapshot(), result) == Resized(old(Snapshot()), id, width, height)
    {
      if id !in windows {
        return Err(EBADF);
      }
      var w := windows[id];
      ScheduleWindow(w);
      var newWidth := if width.Some? then width.value else w.width;
      var newHeight := if height.Some? then height.value else w.height;
      w := w.(width := newWidth, height := newHeight);
      ScheduleWindow(w);
      windows := windows[id := w];
      result := Ok(());
    }

    /** `handle_window_title`. */
    method SetTitle(id: nat, title: string) returns (result: Result<()>)
      modifies this`windows, this`redraws
      ensures (Snapshot(), result) == Titled(old(Snapshot()), id, title)
    {
      if id !in windows {
        return Err(EBADF);
      }
      var w := windows[id].(title := title);
      windows := windows[id := w];
      ScheduleRect(w.TitleBar());
      result := Ok(());
    }

    /** `handle_window_map`. */
    method Map(id: nat) returns (result: Result<()>)
      modifies this`windows
      ensures (Snapshot(), result) == Mapped(old(Snapshot()), id)
    {
      if id in windows {
        var w := windows[id];
        windows := windows[id := w.(settings := w.settings.(maps := w.settings.maps + 1))];
        result := Ok(());
      } else {
        result := Err(EBADF);
      }
    }

    /** `handle_window_unmap`, counting up as written. */
    method Unmap(id: nat) returns (result: Result<()>)
      modifies this`windows
      ensures (Snapshot(), result) == Unmapped(old(Snapshot()), id)
    {
      if id in windows {
        var w := windows[id];
        if w.settings.maps > 0 {
          windows := windows[id := w.(settings := w.settings.(maps := w.settings.maps + 1))];
        }
        result := Ok(());
      } else {
        result := Err(EBADF);
      }
    }

    /** `handle_window_properties`. */
    method Properties(id: nat) returns (result: Result<SchemeWindow>)
      ensures result == PropertiesOf(Snapshot(), id)
    {
      if id in windows {
        result := Ok(windows[id]);
      } else {
        result := Err(EBADF);
      }
    }

    /** `handle_window_sync`. */
    method Sync(id: nat) returns (result: Result<nat>)
      modifies this`redraws
      ensures (Snapshot(), result) == Synced(old(Snapshot()), id)
    {
      if id in windows {
        ScheduleRect(windows[id].Body());
        result := Ok(0);
      } else {
        result := Err(EBADF);
      }
    }

    /** `handle_window_close`, `mouse_event` last. */
    method Close(id: nat) returns (result: Result<nat>)
      requires Valid()
      modifies this
      ensures Valid()
      ensures (Snapshot(), result) == Closed(old(Snapshot()), sizes, id)
    {
      order := RemoveAll(order, id);
      if order != [] && order[0] in windows {
        ScheduleWindow(windows[order[0]]);
      }
      if id in windows {
        ScheduleWindow(windows[id]);
        windows := windows - {id};
        result := Ok(0);
      } else {
        result := Err(EBADF);
      }
      Restore(PointerMoved(Snapshot(), sizes, cursor.x, cursor.y));
    }

    /** `handle_clipboard_new`. */
    method ClipboardNew(id: nat) returns (result: Result<nat>)
      modifies this`windows
      ensures (Snapshot(), result) == ClipboardOpened(old(Snapshot()), id)
    {
      if id in windows {
        windows := windows[id := Sought(windows[id], 0)];
        result := Ok(id);
      } else {
        result := Err(EBADF);
      }
    }

    /** `handle_clipboard_read`: byte `i` of the clipboard goes to slot `i`, however far the window has read. */
    method ClipboardReadInto(id: nat, len: nat) returns (result: Result<seq<Byte>>)
      modifies this`windows
      ensures (Snapshot(), result) == ClipboardReadBy(old(Snapshot()), id, len)
    {
      if id !in windows {
        return Err(EBADF);
      }
      var w := windows[id];
      var seek := w.settings.clipboardSeek;
      var buf: seq<Byte> := [];
      var i := 0;
      while i < len && seek < |clipboard|
        invariant 0 <= i <= len && seek == w.settings.clipboardSeek + i
        invariant i <= |clipboard| && buf == clipboard[..i]
        invariant i > 0 ==> seek <= |clipboard|
      {
        buf := buf + [clipboard[i]];
        i := i + 1;
        seek := seek + 1;
      }
      windows := windows[id := Sought(w, seek)];
      result := Ok(buf);
    }

    /** `handle_clipboard_write`: truncate at the window's position, then push byte by byte. */
    method ClipboardWrite(id: nat, buf: seq<Byte>) returns (result: Result<nat>)
      modifies this`windows, this`clipboard
      ensures (Snapshot(), result) == ClipboardWrittenBy(old(Snapshot()), id, buf)
    {
      if id !in windows {
        return Err(EBADF);
      }
      var w := windows[id];
      var seek := w.settings.clipboardSeek;
      var kept := Min(seek, |clipboard|);
      clipboard := clipboard[..kept];
      var i := 0;
      while i < |buf|
        invariant 0 <= i <= |buf| && seek == w.settings.clipboardSeek + i
        invariant clipboard == old(clipboard)[..kept] + buf[..i] && windows == old(windows)
      {
        clipboard := clipboard + [buf[i]];
        i := i + 1;
        seek := seek + 1;
      }
      assert buf[..i] == buf;
      assert clipboard == ClipboardWritten(old(clipboard), w.settings.clipboardSeek, buf);
      windows := windows[id := Sought(w, seek)];
      result := Ok(i);
    }

    /** `handle_clipboard_close`. */
    method ClipboardClose(id: nat) returns (result: Result<nat>)
      ensures result == ClipboardClosed(Snapshot(), id)
    {
      result := if id in windows then Ok(0) else Err(EBADF);
    }

    /**
     * The tail of `window_new`: the old front redrawn, the new window
     * scheduled, put in the focus order by its level and into the table.
     */
    method Insert(id: nat, w: SchemeWindow)
      modifies this`redraws, this`order, this`windows
      ensures Snapshot() == Inserted(old(Snapshot()), id, w)
    {
      if order != [] && order[0] in windows {
        ScheduleWindow(windows[order[0]]);
      }
      ScheduleWindow(w);
      if w.style.zorder == Back {
        order := order + [id];
      } else {
        order := [id] + order;
      }
      windows := windows[id := w];
    }

    /**
     * `window_new`: the counter, the placement, the flag loop, the insertion,
     * and `mouse_event` at the pointer. A window placed automatically is
     * centred on `first`, the display whose image `orb.image()` returns.
     */
    method WindowNew(first: Display, x: int, y: int, width: nat, height: nat, flags: string, title: string)
      returns (id: nat)
      requires Valid()
      modifies this
      ensures Valid() && id == old(nextId)
      ensures (Snapshot(), id) == Created(old(Snapshot()), sizes, scale, first.width, first.height, x, y, width, height, flags, title)
    {
      var screenW, screenH := first.width, first.height;
      NextIdAfterSpec(nextId);
      id := AsUsize(nextId);
      nextId := NextIdAfter(nextId);
      var p := Placed(x, y, width, height, screenW, screenH);
      var w := NewWindow(p.0, p.1, width, height, scale);
      var style := ApplyFlags(w.style, flags);
      w := w.(title := title, style := style);
      assert w == Built(p.0, p.1, width, height, scale, flags, title);
      Insert(id, w);
      Restore(PointerMoved(Snapshot(), sizes, cursor.x, cursor.y));
    }

    /** `event`: `rezbuffer` and then the event's handler. */
    method Event(env: Surroundings, input: Input)
      requires Valid() && env.displays != []
      modifies this
      ensures Valid()
      ensures Snapshot() == Dispatched(old(Snapshot()), env, input)
    {
      Rezbuffer();
      var s := Snapshot();
      match input {
        case KeyInput(scancode, pressed, character) =>
          Restore(Keyed(s, scancode, pressed, character, env.volumeRead, env.volumeWriteOk, env.screenW, env.screenH));
        case MouseInput(px, py) => Restore(PointerMoved(s, env.sizes, px, py));
        case RelativeInput(dx, dy) => Restore(RelativeMoved(s, env.displays, env.sizes, dx, dy));
        case ButtonInput(left, middle, right) => Restore(Pressed(s, env.displays, left, middle, right));
        case ScrollInput(e) =>
          if zbuffer != [] && zbuffer[0].id in windows {
            var w := windows[zbuffer[0].id];
            windows := windows[zbuffer[0].id := Notified(w, e)];
          }
        case ResizeInput(width, height) =>
          var d := Remapped(env.displays[0], width, height, env.remapOk);
          ScheduleRect(ScreenRect(d));
          windows := Broadcast(windows, ScreenEvent(d.width, d.height));
        case OtherInput =>
      }
    }

    /**
     * The loop of `display_event` and `scheme_event` over the windows in
     * ascending id order; it returns the ids it writes an event-read packet
     * for, in that order.
     */
    method Announce() returns (ids: seq<nat>)
      modifies this`windows
      ensures windows == Announced(old(windows))
      ensures forall j :: j in ids <==> j in Announcements(old(windows))
      ensures forall k :: 0 <= k < |ids| - 1 ==> ids[k] < ids[k + 1]
    {
      windows, ids := AnnounceAll(windows);
    }
  }
}
