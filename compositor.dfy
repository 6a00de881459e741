// The compositor's bookkeeping (src/compositor.rs): the list of damaged
// rectangles it has to repaint, the popup and the software cursor. Pixels,
// display sync writes and hardware-cursor commands are not part of this model;
// an image the compositor holds is known here only by its size.
module Compositing {
  import opened Helpers
  import opened Rects
  import opened Damage
  import opened Utf8
  import opened Displays

  /** The size of an image the compositor holds (the popup, the cursor). */
  datatype Extent = Extent(width: nat, height: nat)

  /**
   * `popup_rect`: the popup's place, centred on a screen of the given size with
   * Rust's integer halving. The two margins differ by at most one pixel, and a
   * popup no larger than the screen lies inside it.
   */
  function PopupRect(screen: Rect, popup: Extent): (r: Rect)
    ensures r.w == popup.width && r.h == popup.height
    ensures -1 <= (screen.w - r.Right()) - r.x <= 1
    ensures -1 <= (screen.h - r.Bottom()) - r.y <= 1
    ensures popup.width <= screen.w && popup.height <= screen.h ==>
      Within(r, Rect(0, 0, screen.w, screen.h))
  {
    Rect(screen.w / 2 - popup.width / 2, screen.h / 2 - popup.height / 2, popup.width, popup.height)
  }

  /**
   * `cursor_rect`: the cursor image placed so that its hotspot sits on the
   * pointer; when the hotspot is inside the image, the pointer is inside the rect.
   */
  function CursorRect(x: int, y: int, hotX: int, hotY: int, cursor: Extent): (r: Rect)
    ensures r.x + hotX == x && r.y + hotY == y
    ensures r.w == cursor.width && r.h == cursor.height
    ensures 0 <= hotX <= cursor.width && 0 <= hotY <= cursor.height ==> r.Contains(x, y)
  {
    Rect(x - hotX, y - hotY, cursor.width, cursor.height)
  }

  /**
   * Two `schedule` calls in a row (what `update_cursor` does with the old and
   * the new cursor rect): both requests are covered, earlier damage stays
   * covered, and the list grows by at most two.
   */
  lemma {:induction false} ScheduledTwiceCovers(redraws: seq<Rect>, first: Rect, second: Rect)
    ensures var r := Scheduled(Scheduled(redraws, first), second);
      Covered(r, first) && Covered(r, second) &&
      (forall q :: Covered(redraws, q) ==> Covered(r, q)) &&
      |redraws| <= |r| <= |redraws| + 2
  {
    var mid := Scheduled(redraws, first);
    ScheduledKeeps(redraws, first);
    ScheduledKeeps(mid, second);
  }

  class Compositor {
    var displays: seq<Display>
    var redraws: seq<Rect>
    var popup: Option<Extent>
    /** Whether the display driver draws the cursor itself (decided once, at start-up). */
    const hwCursor: bool
    var cursor: Extent
    var cursorX: int
    var cursorY: int
    var hotX: int
    var hotY: int

    /** There is a first display: `screen_rect` and `resize` index `displays[0]`. */
    predicate Valid()
      reads this
    {
      displays != []
    }

    /** `screen_rect`: the rectangle of the first display. */
    function Screen(): Rect
      requires Valid()
      reads this
    {
      ScreenRect(displays[0])
    }

    /**
     * `Compositor::new`: one redraw rect per display, its screen rect, in display
     * order. `probe` is the byte read from the first display's file (0 when the
     * read fails); a 1 means the driver has a hardware cursor.
     */
    constructor(ds: seq<Display>, probe: Byte)
      requires ds != []
      ensures Valid() && displays == ds
      ensures |redraws| == |ds| && forall i :: 0 <= i < |ds| ==> redraws[i] == ScreenRect(ds[i])
      ensures popup == None && hwCursor == (probe == 1)
      ensures cursor == Extent(0, 0) && cursorX == 0 && cursorY == 0 && hotX == 0 && hotY == 0
    {
      var rs: seq<Rect> := [];
      var i := 0;
      while i < |ds|
        invariant 0 <= i <= |ds| && |rs| == i
        invariant forall j :: 0 <= j < i ==> rs[j] == ScreenRect(ds[j])
      {
        rs := rs + [ScreenRect(ds[i])];
        i := i + 1;
      }
      displays := ds;
      redraws := rs;
      popup := None;
      hwCursor := probe == 1;
      cursor := Extent(0, 0);
      cursorX, cursorY, hotX, hotY := 0, 0, 0, 0;
    }

    /** `schedule`: the request is merged into the pending redraws. */
    method Schedule(request: Rect)
      modifies this`redraws
      ensures redraws == Scheduled(old(redraws), request)
      ensures Covered(redraws, request)
      ensures forall q :: Covered(old(redraws), q) ==> Covered(redraws, q)
      ensures |old(redraws)| <= |redraws| <= |old(redraws)| + 1
    {
      ScheduledKeeps(redraws, request);
      redraws := Damage.Schedule(redraws, request);
    }

    /**
     * `resize`: the first display is remapped at the new size (`remapped` says
     * whether mapping the new framebuffer succeeded; on failure the old image is
     * kept), then its screen rect is scheduled.
     */
    method Resize(width: nat, height: nat, remapped: bool)
      requires Valid()
      modifies this`displays, this`redraws
      ensures Valid()
      ensures displays == old(displays)[0 := if remapped then old(displays[0]).(width := width, height := height) else old(displays[0])]
      ensures redraws == Scheduled(old(redraws), Screen())
      ensures Covered(redraws, Screen())
      ensures forall q :: Covered(old(redraws), q) ==> Covered(redraws, q)
    {
      if remapped {
        displays := displays[0 := displays[0].(width := width, height := height)];
      }
      Schedule(Screen());
    }

    /** `set_popup`: the old popup's place is scheduled for repainting before it is replaced. */
    method SetPopup(image: Option<Extent>)
      requires Valid()
      modifies this`redraws, this`popup
      ensures popup == image
      ensures old(popup).None? ==> redraws == old(redraws)
      ensures old(popup).Some? ==>
        redraws == Scheduled(old(redraws), PopupRect(Screen(), old(popup).value)) &&
        Covered(redraws, PopupRect(Screen(), old(popup).value))
      ensures forall q :: Covered(old(redraws), q) ==> Covered(redraws, q)
    {
      if popup.Some? {
        Schedule(PopupRect(Screen(), popup.value));
      }
      popup := image;
    }

    /**
     * `update_cursor`, without the hardware-cursor command: the cursor fields
     * take the arguments, and with a software cursor both the old and the new
     * cursor rect are scheduled, in that order.
     */
    method UpdateCursor(x: int, y: int, hx: int, hy: int, image: Extent)
      modifies this`redraws, this`cursor, this`cursorX, this`cursorY, this`hotX, this`hotY
      ensures cursorX == x && cursorY == y && hotX == hx && hotY == hy && cursor == image
      ensures hwCursor ==> redraws == old(redraws)
      ensures !hwCursor ==>
        redraws == Scheduled(Scheduled(old(redraws), CursorRect(old(cursorX), old(cursorY), old(hotX), old(hotY), old(cursor))),
                             CursorRect(x, y, hx, hy, image))
      ensures !hwCursor ==>
        Covered(redraws, CursorRect(old(cursorX), old(cursorY), old(hotX), old(hotY), old(cursor))) &&
        Covered(redraws, CursorRect(x, y, hx, hy, image)) &&
        |redraws| <= |old(redraws)| + 2
      ensures forall q :: Covered(old(redraws), q) ==> Covered(redraws, q)
    {
      if !hwCursor {
        ScheduledTwiceCovers(redraws, CursorRect(cursorX, cursorY, hotX, hotY, cursor), CursorRect(x, y, hx, hy, image));
        Schedule(CursorRect(cursorX, cursorY, hotX, hotY, cursor));
      }
      cursorX := x;
      cursorY := y;
      hotX := hx;
      hotY := hy;
      cursor := image;
      if !hwCursor {
        Schedule(CursorRect(cursorX, cursorY, hotX, hotY, cursor));
      }
    }
  }
}
