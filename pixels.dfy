// Pixel arithmetic and the region-of-interest (ROI) geometry shared by the two
// image modules (src/core/image.rs and the legacy src/image.rs). A pixel is a
// 32-bit ARGB word; a ROI is a rectangle inside an image `w` pixels wide whose
// rows lie `w` apart in one flat buffer.
module Pixels {
  import opened Helpers
  import opened Rects

  const TWO24: int := 0x100_0000

  /** `orbclient::Color`'s `data` word, 0xAARRGGBB. */
  type Color = c: int | 0 <= c < 0x1_0000_0000

  /** `(c >> 24) & 0xFF` */
  function Alpha(c: Color): nat { c / TWO24 }
  /** `(c >> 16) & 0xFF` */
  function Red(c: nat): nat { (c / 0x1_0000) % 0x100 }
  /** `(c >> 8) & 0xFF` */
  function Green(c: nat): nat { (c / 0x100) % 0x100 }
  /** `c & 0xFF` */
  function Blue(c: nat): nat { c % 0x100 }

  /** `(ch * weight) >> 8` */
  function Scale(ch: nat, weight: nat): nat { (ch * weight) / 0x100 }

  /**
   * `(r << 16) | (g << 8) | b`. The three fields occupy disjoint bits whenever
   * each is below 256, which is the only way the server uses it, so the
   * bitwise or is the sum.
   */
  function Pack(r: nat, g: nat, b: nat): nat { r * 0x1_0000 + g * 0x100 + b }

  lemma DivModUnique(q: int, m: int, d: int)
    requires d > 0 && 0 <= m < d
    ensures (q * d + m) / d == q && (q * d + m) % d == m
  {
    var n := q * d + m;
    var k, r := n / d, n % d;
    assert n == k * d + r && 0 <= r < d;
    if k > q {
      assert k * d >= (q + 1) * d by { MulMono(q + 1, k, d); }
      assert false;
    } else if k < q {
      assert q * d >= (k + 1) * d by { MulMono(k + 1, q, d); }
      assert false;
    }
  }

  lemma MulMono(a: int, b: int, d: int)
    requires a <= b && d >= 0
    ensures a * d <= b * d
  {
    assert b * d - a * d == (b - a) * d;
  }

  lemma PackChannels(r: nat, g: nat, b: nat)
    requires r < 0x100 && g < 0x100 && b < 0x100
    ensures Pack(r, g, b) < TWO24
    ensures Red(Pack(r, g, b)) == r && Green(Pack(r, g, b)) == g && Blue(Pack(r, g, b)) == b
  {
    var p := Pack(r, g, b);
    DivModUnique(r * 0x100 + g, b, 0x100);
    assert p == (r * 0x100 + g) * 0x100 + b;
    DivModUnique(r, g, 0x100);
    DivModUnique(r, g * 0x100 + b, 0x1_0000);
    DivModUnique(0, r, 0x100);
    DivModUnique(0, b, 0x100);
  }

  lemma ScaleBound(ch: nat, weight: nat)
    requires ch < 0x100 && weight <= 255
    ensures Scale(ch, weight) * 0x100 <= ch * weight
  {
  }

  /** Two weights summing to 255 never push a mixed channel past 254. */
  lemma MixNoCarry(o: nat, n: nat, a: nat)
    requires o < 0x100 && n < 0x100 && a <= 255
    ensures Scale(o, 255 - a) + Scale(n, a) < 0x100
  {
    ScaleBound(o, 255 - a);
    ScaleBound(n, a);
    MulMono(o, 255, 255 - a);
    MulMono(n, 255, a);
  }

  lemma ChannelBounds(c: nat)
    ensures Red(c) < 0x100 && Green(c) < 0x100 && Blue(c) < 0x100
  {
  }

  /** The weighted mix of one channel, as the blend computes it. */
  function MixChannel(o: nat, n: nat, a: nat): nat
    requires a <= 255
  {
    Scale(o, 255 - a) + Scale(n, a)
  }

  /**
   * The integer alpha blend of `blend` and `set`: an opaque source replaces the
   * pixel, a transparent one leaves it, and anything between mixes each colour
   * channel with weights `a` and `255 - a`, leaving the alpha byte zero.
   */
  function BlendPixel(dst: Color, src: Color): (r: Color)
    ensures Alpha(src) >= 255 ==> r == src
    ensures Alpha(src) == 0 ==> r == dst
    ensures 0 < Alpha(src) < 255 ==>
      r < TWO24 &&
      Red(r) == MixChannel(Red(dst), Red(src), Alpha(src)) &&
      Green(r) == MixChannel(Green(dst), Green(src), Alpha(src)) &&
      Blue(r) == MixChannel(Blue(dst), Blue(src), Alpha(src))
  {
    var a := Alpha(src);
    if a >= 255 then src
    else if a > 0 then
      var n_r, n_g, n_b := Scale(Red(src), a), Scale(Green(src), a), Scale(Blue(src), a);
      var o_r, o_g, o_b := Scale(Red(dst), 255 - a), Scale(Green(dst), 255 - a), Scale(Blue(dst), 255 - a);
      ChannelBounds(dst);
      ChannelBounds(src);
      MixNoCarry(Red(dst), Red(src), a);
      MixNoCarry(Green(dst), Green(src), a);
      MixNoCarry(Blue(dst), Blue(src), a);
      assert Pack(o_r, o_g, o_b) + Pack(n_r, n_g, n_b) == Pack(o_r + n_r, o_g + n_g, o_b + n_b);
      PackChannels(o_r + n_r, o_g + n_g, o_b + n_b);
      Pack(o_r, o_g, o_b) + Pack(n_r, n_g, n_b)
    else dst
  }

  /** A ROI: `rect` inside an image `w` pixels wide. */
  datatype Roi = Roi(rect: Rect, w: nat)

  /** The ROI lies inside an image of `w` columns whose buffer holds `len` pixels. */
  predicate Inside(roi: Roi, len: nat) {
    roi.rect.x >= 0 && roi.rect.y >= 0 && roi.rect.x + roi.rect.w <= roi.w &&
    (roi.rect.y + roi.rect.h) * roi.w <= len
  }

  /** Buffer index of column `j` of row `i` of the ROI. */
  function At(roi: Roi, i: int, j: int): int { (roi.rect.y + i) * roi.w + roi.rect.x + j }

  /** ROI coordinates of a buffer index (meaningful for images at least one pixel wide). */
  function RowOf(roi: Roi, p: int): int requires roi.w > 0 { p / roi.w - roi.rect.y }
  function ColOf(roi: Roi, p: int): int requires roi.w > 0 { p % roi.w - roi.rect.x }

  /** `p` is one of the first `rows` x `cols` pixels of the ROI. */
  predicate InZone(roi: Roi, rows: int, cols: int, p: int) {
    roi.w > 0 && 0 <= RowOf(roi, p) < rows && 0 <= ColOf(roi, p) < cols
  }

  /** Row-major progress: all of rows `< i` and the first `j` pixels of row `i`. */
  predicate Done(roi: Roi, cols: int, i: int, j: int, p: int) {
    roi.w > 0 && 0 <= ColOf(roi, p) < cols &&
    (0 <= RowOf(roi, p) < i || (RowOf(roi, p) == i && ColOf(roi, p) < j))
  }

  /** The coordinates of a ROI pixel read back from its index. */
  lemma AtCoords(roi: Roi, i: int, j: int)
    requires roi.w > 0 && 0 <= roi.rect.x + j < roi.w
    ensures RowOf(roi, At(roi, i, j)) == i && ColOf(roi, At(roi, i, j)) == j
  {
    DivModUnique(roi.rect.y + i, roi.rect.x + j, roi.w);
  }

  /** An index is determined by its coordinates. */
  lemma CoordsAt(roi: Roi, p: int)
    requires roi.w > 0
    ensures p == At(roi, RowOf(roi, p), ColOf(roi, p))
  {
  }

  lemma AtInBuffer(roi: Roi, len: nat, i: int, j: int)
    requires Inside(roi, len) && 0 <= i < roi.rect.h && 0 <= j < roi.rect.w
    ensures 0 <= At(roi, i, j) < len
  {
    MulMono(roi.rect.y + i + 1, roi.rect.y + roi.rect.h, roi.w);
    MulMono(0, roi.rect.y + i, roi.w);
  }

  /** `s[k]`, read as 0 off the end; used where an index is only known to be in range in the zone. */
  function Pick(s: seq<Color>, k: int): Color { if 0 <= k < |s| then s[k] else 0 }

  /** Writing pixel (i, j) extends the row-major progress by exactly that index. */
  lemma DoneStep(roi: Roi, cols: int, i: int, j: int, p: int)
    requires roi.w > 0 && roi.rect.x >= 0 && 0 <= i && 0 <= j < cols && roi.rect.x + cols <= roi.w
    ensures Done(roi, cols, i, j + 1, p) <==> Done(roi, cols, i, j, p) || p == At(roi, i, j)
    ensures !Done(roi, cols, i, j, At(roi, i, j))
  {
    AtCoords(roi, i, j);
    CoordsAt(roi, p);
  }

  /**
   * The row loop of `blend`/`blit`: the rows and pixels of the two ROIs are
   * zipped, so the first min(height) x min(width) pixels of `dst` are
   * combined with the matching pixels of `src` by `f`; nothing else changes.
   * The two borrows of the source cannot alias.
   */
  method ZipRows(dst: array<Color>, droi: Roi, src: array<Color>, sroi: Roi, f: (Color, Color) -> Color)
    requires dst != src
    requires Inside(droi, dst.Length) && Inside(sroi, src.Length)
    modifies dst
    ensures var rows, cols := Min(droi.rect.h, sroi.rect.h), Min(droi.rect.w, sroi.rect.w);
      forall p :: 0 <= p < dst.Length ==>
        dst[p] == if InZone(droi, rows, cols, p)
                  then f(old(dst[p]), Pick(src[..], At(sroi, RowOf(droi, p), ColOf(droi, p))))
                  else old(dst[p])
  {
    var rows, cols := Min(droi.rect.h, sroi.rect.h), Min(droi.rect.w, sroi.rect.w);
    var i := 0;
    while i < rows
      invariant 0 <= i <= rows
      invariant forall p :: 0 <= p < dst.Length ==>
        dst[p] == if Done(droi, cols, i, 0, p)
                  then f(old(dst[p]), Pick(src[..], At(sroi, RowOf(droi, p), ColOf(droi, p))))
                  else old(dst[p])
    {
      var j := 0;
      while j < cols
        invariant 0 <= j <= cols
        invariant forall p :: 0 <= p < dst.Length ==>
          dst[p] == if Done(droi, cols, i, j, p)
                    then f(old(dst[p]), Pick(src[..], At(sroi, RowOf(droi, p), ColOf(droi, p))))
                    else old(dst[p])
      {
        var d := At(droi, i, j);
        AtInBuffer(droi, dst.Length, i, j);
        AtInBuffer(sroi, src.Length, i, j);
        AtCoords(droi, i, j);
        forall p | 0 <= p < dst.Length {
          DoneStep(droi, cols, i, j, p);
        }
        dst[d] := f(dst[d], src[At(sroi, i, j)]);
        j := j + 1;
      }
      i := i + 1;
    }
  }

  /** A row loop over a single ROI: every ROI pixel is replaced by `f` of itself. */
  method MapRows(dst: array<Color>, droi: Roi, f: Color -> Color)
    requires Inside(droi, dst.Length)
    modifies dst
    ensures forall p :: 0 <= p < dst.Length ==>
      dst[p] == if InZone(droi, droi.rect.h, droi.rect.w, p) then f(old(dst[p])) else old(dst[p])
  {
    var rows, cols := droi.rect.h, droi.rect.w;
    var i := 0;
    while i < rows
      invariant 0 <= i <= rows
      invariant forall p :: 0 <= p < dst.Length ==>
        dst[p] == if Done(droi, cols, i, 0, p) then f(old(dst[p])) else old(dst[p])
    {
      var j := 0;
      while j < cols
        invariant 0 <= j <= cols
        invariant forall p :: 0 <= p < dst.Length ==>
          dst[p] == if Done(droi, cols, i, j, p) then f(old(dst[p])) else old(dst[p])
      {
        var d := At(droi, i, j);
        AtInBuffer(droi, dst.Length, i, j);
        forall p | 0 <= p < dst.Length {
          DoneStep(droi, cols, i, j, p);
        }
        dst[d] := f(dst[d]);
        j := j + 1;
      }
      i := i + 1;
    }
  }

  /** Read in ROI coordinates: pixel (i, j) of the zone is the ROI's At(i, j). */
  lemma ZoneAt(roi: Roi, len: nat, rows: int, cols: int, i: int, j: int)
    requires Inside(roi, len) && roi.w > 0
    requires 0 <= i < rows <= roi.rect.h && 0 <= j < cols <= roi.rect.w
    ensures 0 <= At(roi, i, j) < len && InZone(roi, rows, cols, At(roi, i, j))
    ensures RowOf(roi, At(roi, i, j)) == i && ColOf(roi, At(roi, i, j)) == j
  {
    AtInBuffer(roi, len, i, j);
    AtCoords(roi, i, j);
  }
}
