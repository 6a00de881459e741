// A display as the window manager sees it. The display driver of
// src/core/display.rs (mapping and unmapping the framebuffer) is not part of
// this model: a display is its place on the virtual screen, its size and its
// scale factor.
module Displays {
  import opened Rects

  datatype Display = Display(x: int, y: int, width: nat, height: nat, scale: nat)

  /** `screen_rect`: where the display sits on the virtual screen. */
  function ScreenRect(d: Display): Rect
  {
    Rect(d.x, d.y, d.width, d.height)
  }

  /**
   * `Display::resize`: the display takes the new size when its framebuffer
   * could be mapped at that size (`ok`); otherwise it keeps the old image, and
   * so the old size.
   */
  function Remapped(d: Display, width: nat, height: nat, ok: bool): (r: Display)
    ensures r.x == d.x && r.y == d.y && r.scale == d.scale
    ensures ok ==> r.width == width && r.height == height
    ensures !ok ==> r == d
  {
    if ok then d.(width := width, height := height) else d
  }
}
