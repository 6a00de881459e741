// The window entity of src/window.rs: its geometry and hit zones, its flags and
// their string form, its event queue, and the resize that keeps the
// overlapping pixels.
module WindowModel {
  import opened Helpers
  import opened Rects
  import opened ZSort
  import opened Pixels
  import opened CoreImage
  import opened Events

  const TITLE_HEIGHT: int := 28

  /**
   * Where a maximized window sits. The type is declared outside the files this
   * model covers; the window only asks whether it is `FullScreen`.
   */
  datatype TilePosition = FullScreen | Tiled

  /** The window fields that `set_flag` and `properties` deal in. */
  datatype Flags = Flags(
    asynchronous: bool, borderless: bool, hidden: bool, resizable: bool,
    transparent: bool, unclosable: bool, zorder: ZOrder,
    restore: Option<TilePosition>)

  /** The flags of a new window (with `restore` as given, since no flag character sets it). */
  function Defaults(restore: Option<TilePosition>): Flags {
    Flags(false, false, false, false, false, false, Normal, restore)
  }

  function Mark(on: bool, c: char): string { if on then [c] else [] }

  /**
   * The flag tests of `properties`, in the order they push their characters:
   * a, l, h, m (with M when maximized full screen), r, t, u, then b or f.
   */
  function Pieces(f: Flags): seq<(bool, char)> {
    [(f.asynchronous, 'a'), (f.borderless, 'l'), (f.hidden, 'h'),
     (f.restore.Some?, 'm'), (f.restore == Some(FullScreen), 'M'),
     (f.resizable, 'r'), (f.transparent, 't'), (f.unclosable, 'u'),
     (f.zorder == Back, 'b'), (f.zorder == Front, 'f')]
  }

  /** The characters of the tests that hold, in order. */
  function Emit(ps: seq<(bool, char)>): string
  {
    if ps == [] then [] else Mark(ps[0].0, ps[0].1) + Emit(ps[1..])
  }

  /** `properties().flags`. */
  function FlagString(f: Flags): string
  {
    Emit(Pieces(f))
  }

  /** Position of a flag character in the properties string order. */
  function FlagRank(c: char): int {
    match c
    case 'a' => 0
    case 'l' => 1
    case 'h' => 2
    case 'm' => 3
    case 'M' => 4
    case 'r' => 5
    case 't' => 6
    case 'u' => 7
    case 'b' => 8
    case 'f' => 9
    case _ => 10
  }

  predicate StrictlyRanked(s: string) {
    forall i, j :: 0 <= i < j < |s| ==> FlagRank(s[i]) < FlagRank(s[j])
  }

  /** The character of a test is emitted iff the test holds, given distinct characters. */
  lemma {:induction false} EmitHas(ps: seq<(bool, char)>, k: int, i: int)
    requires forall j :: 0 <= j < |ps| ==> FlagRank(ps[j].1) == k + j
    requires 0 <= i < |ps|
    ensures ps[i].1 in Emit(ps) <==> ps[i].0
  {
    var rest := ps[1..];
    EmitRanked(rest, k + 1);
    if i > 0 {
      EmitHas(rest, k + 1, i - 1);
      assert rest[i - 1] == ps[i];
    }
  }

  lemma {:induction false} EmitRanked(ps: seq<(bool, char)>, k: int)
    requires forall i :: 0 <= i < |ps| ==> FlagRank(ps[i].1) == k + i
    ensures StrictlyRanked(Emit(ps))
    ensures forall i :: 0 <= i < |Emit(ps)| ==> FlagRank(Emit(ps)[i]) >= k
  {
    if ps != [] {
      var rest := ps[1..];
      EmitRanked(rest, k + 1);
      var e, t := Emit(ps), Emit(rest);
      if ps[0].0 {
        assert forall i :: 1 <= i < |e| ==> e[i] == t[i - 1];
      } else {
        assert e == t;
      }
    }
  }

  lemma PiecesRanked(f: Flags)
    ensures forall j :: 0 <= j < |Pieces(f)| ==> FlagRank(Pieces(f)[j].1) == j
  {
    var ps := Pieces(f);
    forall j | 0 <= j < |ps| ensures FlagRank(ps[j].1) == j {
      if j == 0 {} else if j == 1 {} else if j == 2 {} else if j == 3 {} else if j == 4 {}
      else if j == 5 {} else if j == 6 {} else if j == 7 {} else if j == 8 {} else {}
    }
  }

  /**
   * The properties string holds the character of a flag exactly when that flag
   * is set, and lists its characters in the order a, l, h, m, M, r, t, u, b, f,
   * so each at most once.
   */
  lemma FlagStringSpec(f: Flags)
    ensures var s := FlagString(f);
      ('a' in s <==> f.asynchronous) && ('l' in s <==> f.borderless) && ('h' in s <==> f.hidden) &&
      ('m' in s <==> f.restore.Some?) && ('M' in s <==> f.restore == Some(FullScreen)) &&
      ('r' in s <==> f.resizable) && ('t' in s <==> f.transparent) && ('u' in s <==> f.unclosable) &&
      ('b' in s <==> f.zorder == Back) && ('f' in s <==> f.zorder == Front) &&
      StrictlyRanked(s)
  {
    var ps := Pieces(f);
    PiecesRanked(f);
    EmitRanked(ps, 0);
    EmitHas(ps, 0, 0);
    EmitHas(ps, 0, 1);
    EmitHas(ps, 0, 2);
    EmitHas(ps, 0, 3);
    EmitHas(ps, 0, 4);
    EmitHas(ps, 0, 5);
    EmitHas(ps, 0, 6);
    EmitHas(ps, 0, 7);
    EmitHas(ps, 0, 8);
    EmitHas(ps, 0, 9);
  }

  /** True for the characters `set_flag` knows. */
  predicate KnownFlag(c: char) {
    c == 'a' || c == 'b' || c == 'f' || c == 'h' || c == 'l' || c == 'r' || c == 't' || c == 'u'
  }

  /**
   * `set_flag(c, v)` on the flag fields, field by field: the field named by `c`
   * takes `v` ('b' and 'f' set their level, or Normal when `v` is false).
   */
  function WithFlag(f: Flags, c: char, v: bool): Flags
  {
    Flags(
      asynchronous := if c == 'a' then v else f.asynchronous,
      borderless := if c == 'l' then v else f.borderless,
      hidden := if c == 'h' then v else f.hidden,
      resizable := if c == 'r' then v else f.resizable,
      transparent := if c == 't' then v else f.transparent,
      unclosable := if c == 'u' then v else f.unclosable,
      zorder := if c == 'b' then (if v then Back else Normal)
                else if c == 'f' then (if v then Front else Normal)
                else f.zorder,
      restore := f.restore)
  }

  /** Character by character, `set_flag` is a single field update (or none). */
  lemma WithFlagCases(f: Flags, c: char, v: bool)
    ensures c == 'a' ==> WithFlag(f, c, v) == f.(asynchronous := v)
    ensures c == 'b' ==> WithFlag(f, c, v) == f.(zorder := if v then Back else Normal)
    ensures c == 'f' ==> WithFlag(f, c, v) == f.(zorder := if v then Front else Normal)
    ensures c == 'h' ==> WithFlag(f, c, v) == f.(hidden := v)
    ensures c == 'l' ==> WithFlag(f, c, v) == f.(borderless := v)
    ensures c == 'r' ==> WithFlag(f, c, v) == f.(resizable := v)
    ensures c == 't' ==> WithFlag(f, c, v) == f.(transparent := v)
    ensures c == 'u' ==> WithFlag(f, c, v) == f.(unclosable := v)
    ensures !KnownFlag(c) ==> WithFlag(f, c, v) == f
  {
  }

  /** Setting every flag character of `s`, in order. */
  function Applied(f: Flags, s: string): Flags
    decreases |s|
  {
    if s == [] then f else Applied(WithFlag(f, s[0], true), s[1..])
  }

  /**
   * `set_flag` touches at most the one field its character names, every
   * other character changes nothing, and 'b'/'f' only ever move between their
   * own level and Normal.
   */
  lemma WithFlagSpec(f: Flags, c: char, v: bool)
    ensures var r := WithFlag(f, c, v);
      r.restore == f.restore &&
      (!KnownFlag(c) ==> r == f) &&
      (c != 'a' ==> r.asynchronous == f.asynchronous) &&
      (c != 'h' ==> r.hidden == f.hidden) &&
      (c != 'l' ==> r.borderless == f.borderless) &&
      (c != 'r' ==> r.resizable == f.resizable) &&
      (c != 't' ==> r.transparent == f.transparent) &&
      (c != 'u' ==> r.unclosable == f.unclosable) &&
      (c != 'b' && c != 'f' ==> r.zorder == f.zorder) &&
      (c == 'b' ==> (r.zorder == Back <==> v) && (r.zorder != Back ==> r.zorder == Normal)) &&
      (c == 'f' ==> (r.zorder == Front <==> v) && (r.zorder != Front ==> r.zorder == Normal))
  {
  }

  /**
   * Setting flags is "last write wins": each boolean flag ends set exactly when
   * it was set before or its character occurs, and the z-order follows 'b' or
   * 'f' when only one of them occurs.
   */
  lemma {:induction false} AppliedFields(g: Flags, s: string)
    ensures var r := Applied(g, s);
      r.asynchronous == (g.asynchronous || 'a' in s) && r.borderless == (g.borderless || 'l' in s) &&
      r.hidden == (g.hidden || 'h' in s) && r.resizable == (g.resizable || 'r' in s) &&
      r.transparent == (g.transparent || 't' in s) && r.unclosable == (g.unclosable || 'u' in s) &&
      r.restore == g.restore &&
      ('b' !in s && 'f' !in s ==> r.zorder == g.zorder) &&
      ('b' in s && 'f' !in s ==> r.zorder == Back) &&
      ('f' in s && 'b' !in s ==> r.zorder == Front)
    decreases |s|
  {
    if s != [] {
      AppliedFields(WithFlag(g, s[0], true), s[1..]);
      assert forall c :: c in s <==> c == s[0] || c in s[1..];
    }
  }

  /**
   * The properties string is read back by `set_flag`: setting each of its
   * characters on a fresh window restores every flag ('m' and 'M' are not
   * flags `set_flag` knows, and the maximize state is carried over as is).
   */
  lemma PropertiesRoundTrip(f: Flags)
    ensures Applied(Defaults(f.restore), FlagString(f)) == f
  {
    FlagStringSpec(f);
    AppliedFields(Defaults(f.restore), FlagString(f));
  }

  /** `Properties`: what a client learns about its window. */
  datatype WindowProperties = WindowProperties(flags: string, x: int, y: int, width: nat, height: nat, title: string)

  /** Row-major index of pixel (i, j) in an image `width` pixels wide. */
  function PixelIndex(width: int, i: int, j: int): int { i * width + j }

  class Window {
    var x: int
    var y: int
    var scale: nat
    var title: string
    var asynchronous: bool
    var borderless: bool
    var hidden: bool
    var resizable: bool
    var transparent: bool
    var unclosable: bool
    var zorder: ZOrder
    var restore: Option<(Rect, TilePosition)>
    var image: ImageAligned
    var events: seq<Event>
    var maps: nat

    ghost predicate Valid() reads this, image {
      image.Valid()
    }

    constructor (x: int, y: int, w: nat, h: nat, scale: nat)
      ensures Valid() && fresh(image) && fresh(image.data)
      ensures this.x == x && this.y == y && this.scale == scale && title == []
      ensures GetFlags() == Defaults(None) && restore == None
      ensures image.w == w && image.h == h && events == [] && maps == 0
    {
      this.x, this.y, this.scale := x, y, scale;
      title := [];
      asynchronous, borderless, hidden, resizable, transparent, unclosable := false, false, false, false, false, false;
      zorder := Normal;
      restore := None;
      image := new ImageAligned(w, h, 4096);
      events := [];
      maps := 0;
    }

    function Width(): nat reads this, image { image.w }
    function Height(): nat reads this, image { image.h }

    function GetFlags(): Flags reads this {
      Flags(asynchronous, borderless, hidden, resizable, transparent, unclosable, zorder,
            if restore.Some? then Some(restore.value.1) else None)
    }

    /** `rect`: the client area, of zero size while hidden. */
    function WindowRect(): (r: Rect)
      reads this, image
      ensures r.x == x && r.y == y
      ensures hidden ==> r.IsEmpty()
      ensures !hidden ==> r.w == Width() && r.h == Height()
    {
      if hidden then Rect(x, y, 0, 0) else Rect(x, y, Width(), Height())
    }

    /** `title_rect`: the title bar, `TITLE_HEIGHT * scale` tall, directly above the client area. */
    function TitleRect(): (r: Rect)
      reads this, image
      ensures borderless || hidden ==> r == Rect(x, y, 0, 0)
      ensures !(borderless || hidden) ==>
        r.Bottom() == WindowRect().Top() && r.Left() == WindowRect().Left() &&
        r.w == WindowRect().w && r.h == TITLE_HEIGHT * scale &&
        Intersection(r, WindowRect()).IsEmpty()
    {
      if borderless || hidden then Rect(x, y, 0, 0)
      else Rect(x, y - TITLE_HEIGHT * scale, Width(), TITLE_HEIGHT * scale)
    }

    function BottomBorderRect(): Rect reads this, image {
      if resizable then Rect(x, y + Height(), Width(), 8 * scale) else Nowhere
    }

    function BottomLeftBorderRect(): Rect reads this, image {
      if resizable then Rect(x - 8 * scale, y + Height(), 8 * scale, 8 * scale) else Nowhere
    }

    function BottomRightBorderRect(): Rect reads this, image {
      if resizable then Rect(x + Width(), y + Height(), 8 * scale, 8 * scale) else Nowhere
    }

    function LeftBorderRect(): Rect reads this, image {
      if resizable then Rect(x - 8 * scale, y, 8 * scale, Height()) else Nowhere
    }

    function RightBorderRect(): Rect reads this, image {
      if resizable then Rect(x + Width(), y, 8 * scale, Height()) else Nowhere
    }

    /**
     * The resize handles: all are the `Nowhere` sentinel unless the window is
     * resizable; otherwise each is an `8 * scale` strip or corner against its
     * edge of the image, sharing no area with it.
     */
    lemma BordersSpec()
      ensures !resizable ==>
        BottomBorderRect() == Nowhere && BottomLeftBorderRect() == Nowhere &&
        BottomRightBorderRect() == Nowhere && LeftBorderRect() == Nowhere && RightBorderRect() == Nowhere
      ensures resizable ==>
        var body := Rect(x, y, Width(), Height());
        BottomBorderRect().Top() == body.Bottom() && BottomBorderRect().h == 8 * scale &&
        BottomBorderRect().Left() == body.Left() && BottomBorderRect().Right() == body.Right() &&
        LeftBorderRect().Right() == body.Left() && LeftBorderRect().w == 8 * scale &&
        LeftBorderRect().Top() == body.Top() && LeftBorderRect().Bottom() == body.Bottom() &&
        RightBorderRect().Left() == body.Right() && RightBorderRect().w == 8 * scale &&
        RightBorderRect().Top() == body.Top() && RightBorderRect().Bottom() == body.Bottom() &&
        BottomLeftBorderRect().Right() == body.Left() && BottomLeftBorderRect().Top() == body.Bottom() &&
        BottomRightBorderRect().Left() == body.Right() && BottomRightBorderRect().Top() == body.Bottom() &&
        Intersection(BottomBorderRect(), body).IsEmpty() && Intersection(LeftBorderRect(), body).IsEmpty() &&
        Intersection(RightBorderRect(), body).IsEmpty()
    {
    }

    /** `max_contains`: the maximize button, left of the close button in the title bar. */
    predicate MaxContains(px: int, py: int) reads this, image {
      !borderless &&
      px >= Max(x + 6 * scale, x + Width() - 36 * scale) &&
      py >= y - TITLE_HEIGHT * scale &&
      px < x + Width() - 18 * scale &&
      py < y
    }

    /** `close_contains`: the close button at the right end of the title bar. */
    predicate CloseContains(px: int, py: int) reads this, image {
      !borderless &&
      px >= Max(x + 6 * scale, x + Width() - 18 * scale) &&
      py >= y - TITLE_HEIGHT * scale &&
      px < x + Width() &&
      py < y
    }

    /**
     * The two buttons never overlap, neither answers for a borderless window,
     * both lie in the title band above the window, and on a visible window
     * both lie inside the title rect.
     */
    lemma ButtonsSpec(px: int, py: int)
      ensures !(MaxContains(px, py) && CloseContains(px, py))
      ensures borderless ==> !MaxContains(px, py) && !CloseContains(px, py)
      ensures MaxContains(px, py) || CloseContains(px, py) ==>
        y - TITLE_HEIGHT * scale <= py < y && px < x + Width()
      ensures !hidden && (MaxContains(px, py) || CloseContains(px, py)) ==> TitleRect().Contains(px, py)
    {
    }

    /**
     * `properties`: the flag string, the position, the image size and the
     * title. Reading the flag string back with `set_flag` gives the window's
     * flags again.
     */
    function Properties(): (p: WindowProperties)
      reads this, image
      ensures Applied(Defaults(GetFlags().restore), p.flags) == GetFlags()
      ensures p.x == x && p.y == y && p.width == Width() && p.height == Height()
      ensures p.title == title
    {
      PropertiesRoundTrip(GetFlags());
      WindowProperties(FlagString(GetFlags()), x, y, Width(), Height(), title)
    }

    method SetFlag(c: char, v: bool)
      modifies this`asynchronous, this`borderless, this`hidden, this`resizable,
               this`transparent, this`unclosable, this`zorder
      ensures GetFlags() == WithFlag(old(GetFlags()), c, v)
    {
      WithFlagCases(GetFlags(), c, v);
      match c {
        case 'a' => asynchronous := v;
        case 'b' => zorder := if v then Back else Normal;
        case 'f' => zorder := if v then Front else Normal;
        case 'h' => hidden := v;
        case 'l' => borderless := v;
        case 'r' => resizable := v;
        case 't' => transparent := v;
        case 'u' => unclosable := v;
        case _ =>
      }
    }

    /** `event`: merge into the last queued event when the codes agree, otherwise queue it. */
    method PushEvent(e: Event)
      modifies this`events
      ensures events == Coalesced(old(events), e)
    {
      if |events| > 0 {
        var last := events[|events| - 1];
        if last.code == e.code {
          if e.code == EVENT_MOUSE || e.code == EVENT_MOVE || e.code == EVENT_RESIZE || e.code == EVENT_SCREEN {
            events := events[|events| - 1 := e];
            return;
          } else if e.code == EVENT_MOUSE_RELATIVE || e.code == EVENT_SCROLL {
            events := events[|events| - 1 := Event(last.code, last.a + e.a, last.b + e.b)];
            return;
          }
        }
      }
      events := events + [e];
    }

    /**
     * `read`: fill `buf` from the front of the queue until one or the other
     * runs out. The events handed over are the oldest ones in FIFO order, the
     * rest stay queued, and slots past the count keep their contents.
     */
    method Read(buf: array<Event>) returns (count: nat)
      modifies this`events, buf
      ensures count == Min(buf.Length, |old(events)|)
      ensures buf[..count] == old(events)[..count]
      ensures buf[count..] == old(buf[count..])
      ensures events == old(events)[count..]
      ensures old(events) == buf[..count] + events
    {
      var i := 0;
      while i < buf.Length
        invariant 0 <= i <= buf.Length && i <= |old(events)|
        invariant events == old(events)[i..]
        invariant buf[..i] == old(events)[..i]
        invariant buf[i..] == old(buf[i..])
      {
        if events == [] {
          assert old(events)[..i] + events == old(events);
          return i;
        }
        var item := events[0];
        events := events[1..];
        buf[i] := item;
        i := i + 1;
      }
      assert old(events)[..i] + events == old(events);
      return buf.Length;
    }

    /**
     * `set_size`: a fresh zeroed `w` x `h` page-aligned image whose overlap
     * with the old one, anchored at the top-left corner, is copied across.
     */
    method SetSize(w: nat, h: nat)
      requires Valid()
      modifies this`image
      ensures Valid() && fresh(image) && fresh(image.data)
      ensures image.w == w && image.h == h && image.data.Length == AlignedBytes(w, h, 4096) / 4
      ensures var rows, cols := Min(h, old(image.h)), Min(w, old(image.w));
        forall i, j :: 0 <= i < rows && 0 <= j < cols ==>
          0 <= PixelIndex(w, i, j) < image.data.Length &&
          0 <= PixelIndex(old(image.w), i, j) < old(image.data.Length) &&
          image.data[PixelIndex(w, i, j)] == old(image.data[PixelIndex(image.w, i, j)])
      ensures var rows, cols := Min(h, old(image.h)), Min(w, old(image.w));
        forall p :: 0 <= p < image.data.Length && !InZone(Roi(Rect(0, 0, cols, rows), w), rows, cols, p) ==>
          image.data[p] == 0
    {
      var newImage := new ImageAligned(w, h, 4096);
      AlignedBytesSpec(w, h, 4096);
      var newRect := Rect(0, 0, w, h);
      var rect := Rect(0, 0, image.w, image.h);
      var intersect := Intersection(newRect, rect);
      var rows, cols := Min(h, image.h), Min(w, image.w);
      assert intersect == Rect(0, 0, cols, rows);
      var dst, src := newImage.Roi(intersect), image.Roi(intersect);
      MulMono(rows, h, w);
      MulMono(rows, image.h, image.w);
      if !intersect.IsEmpty() {
        Blit(dst, src);
      }
      forall i, j | 0 <= i < rows && 0 <= j < cols
        ensures 0 <= PixelIndex(w, i, j) < newImage.data.Length
        ensures 0 <= PixelIndex(image.w, i, j) < image.data.Length
        ensures newImage.data[PixelIndex(w, i, j)] == image.data[PixelIndex(image.w, i, j)]
      {
        ZoneAt(dst.Geometry(), newImage.data.Length, rows, cols, i, j);
        ZoneAt(src.Geometry(), image.data.Length, rows, cols, i, j);
      }
      image := newImage;
    }
  }
}
