// The image buffers of src/core/image.rs: ROI row iterators, blend and blit
// between ROIs, whole-image constructors, replication up-scaling and the
// page-aligned window buffer.
module CoreImage {
  import opened Helpers
  import opened Rects
  import opened Pixels

  /** A half-open index range `[start, end)` into an image buffer: one yielded row slice. */
  datatype Span = Span(start: int, end: int)

  /** The slice the row iterators yield for row `i` of the ROI. */
  function RowSpan(roi: Roi, i: int): Span
  {
    Span(At(roi, i, 0), At(roi, i, 0) + roi.rect.w)
  }

  /** Each row slice lies in the buffer, is `rect.w` long and ends before the next row starts. */
  lemma RowSpanSpec(roi: Roi, len: nat, i: int)
    requires Inside(roi, len) && 0 <= i < roi.rect.h
    ensures var s := RowSpan(roi, i);
      0 <= s.start <= s.end <= len && s.end - s.start == roi.rect.w &&
      (i + 1 < roi.rect.h ==> s.end <= RowSpan(roi, i + 1).start)
  {
    MulMono(0, roi.rect.y + i, roi.w);
    MulMono(roi.rect.y + i + 1, roi.rect.y + roi.rect.h, roi.w);
    assert At(roi, i + 1, 0) == At(roi, i, 0) + roi.w;
  }

  /** One more row moves an index a whole image row on. */
  lemma MulSucc(a: int, w: int)
    ensures (a + 1) * w == a * w + w
  {
  }

  /** `ImageRoiRows`: a counter over the rows of a ROI, computing each slice from `i`. */
  class RoiRows {
    const roi: Roi
    const len: nat
    var i: int

    ghost predicate Valid() reads this {
      Inside(roi, len) && 0 <= i <= roi.rect.h
    }

    constructor (roi: Roi, len: nat)
      requires Inside(roi, len)
      ensures Valid() && this.roi == roi && this.len == len && i == 0
    {
      this.roi := roi;
      this.len := len;
      i := 0;
    }

    method Next() returns (row: Option<Span>)
      requires Valid()
      modifies this`i
      ensures Valid()
      ensures old(i) < roi.rect.h ==> row == Some(RowSpan(roi, old(i))) && i == old(i) + 1
      ensures old(i) >= roi.rect.h ==> row == None && i == old(i)
    {
      if i < roi.rect.h {
        var start := (roi.rect.y + i) * roi.w + roi.rect.x;
        var end := start + roi.rect.w;
        i := i + 1;
        row := Some(Span(start, end));
      } else {
        row := None;
      }
    }
  }

  /**
   * `ImageRoiRowsMut`: walks the buffer by splitting it. The first call skips the
   * `top` rows above the ROI; every call then splits one full image row off the
   * front of what is left and yields the ROI columns of it. `base` is where the
   * remaining slice starts in the original buffer.
   */
  class RoiRowsMut {
    const roi: Roi
    const len: nat
    var base: int
    var remaining: int
    var i: int

    ghost predicate Valid() reads this {
      Inside(roi, len) && 0 <= i <= roi.rect.h &&
      base + remaining == len && 0 <= remaining &&
      (i == 0 ==> base == 0) &&
      (i > 0 ==> base == (roi.rect.y + i) * roi.w)
    }

    constructor (roi: Roi, len: nat)
      requires Inside(roi, len)
      ensures Valid() && this.roi == roi && this.len == len && i == 0
    {
      this.roi := roi;
      this.len := len;
      base, remaining := 0, len;
      i := 0;
    }

    /** Yields the same slices as `RoiRows.Next`. */
    method Next() returns (row: Option<Span>)
      requires Valid()
      modifies this`base, this`remaining, this`i
      ensures Valid()
      ensures old(i) < roi.rect.h ==> row == Some(RowSpan(roi, old(i))) && i == old(i) + 1
      ensures old(i) >= roi.rect.h ==> row == None && i == old(i)
    {
      if i < roi.rect.h {
        var a := roi.rect.y + i;
        MulSucc(a, roi.w);
        MulMono(a + 1, roi.rect.y + roi.rect.h, roi.w);
        if i == 0 {
          // split_at_mut(top * w).1
          base, remaining := base + roi.rect.y * roi.w, remaining - roi.rect.y * roi.w;
        }
        assert base == a * roi.w;
        // split_at_mut(w): the row is [base, base + w), the tail is the rest
        var rowStart := base;
        base, remaining := base + roi.w, remaining - roi.w;
        var start := rowStart + roi.rect.x;
        var end := rowStart + roi.rect.x + roi.rect.w;
        i := i + 1;
        row := Some(Span(start, end));
      } else {
        row := None;
      }
    }
  }

  /** `ImageRoi`: a rectangle, the width of the image it lies in, and that image's pixels. */
  datatype ImageRoi = ImageRoi(rect: Rect, w: nat, data: array<Color>)
  {
    function Geometry(): Roi { Roi(rect, w) }
  }

  function Replace(dst: Color, src: Color): Color { src }

  /** `ImageRoi::blend`: alpha-blend the zipped pixels of `other` onto `self`. */
  method Blend(self: ImageRoi, other: ImageRoi)
    requires self.data != other.data
    requires Inside(self.Geometry(), self.data.Length) && Inside(other.Geometry(), other.data.Length)
    modifies self.data
    ensures var rows, cols := Min(self.rect.h, other.rect.h), Min(self.rect.w, other.rect.w);
      forall p :: 0 <= p < self.data.Length ==>
        self.data[p] == if InZone(self.Geometry(), rows, cols, p)
          then BlendPixel(old(self.data[p]),
                          Pick(other.data[..], At(other.Geometry(), RowOf(self.Geometry(), p), ColOf(self.Geometry(), p))))
          else old(self.data[p])
  {
    ZipRows(self.data, self.Geometry(), other.data, other.Geometry(), BlendPixel);
  }

  /** `ImageRoi::blit`: copy `min(row lengths)` pixels of every zipped row. */
  method Blit(self: ImageRoi, other: ImageRoi)
    requires self.data != other.data
    requires Inside(self.Geometry(), self.data.Length) && Inside(other.Geometry(), other.data.Length)
    modifies self.data
    ensures var rows, cols := Min(self.rect.h, other.rect.h), Min(self.rect.w, other.rect.w);
      forall p :: 0 <= p < self.data.Length ==>
        self.data[p] == if InZone(self.Geometry(), rows, cols, p)
          then Pick(other.data[..], At(other.Geometry(), RowOf(self.Geometry(), p), ColOf(self.Geometry(), p)))
          else old(self.data[p])
  {
    ZipRows(self.data, self.Geometry(), other.data, other.Geometry(), Replace);
  }

  /** `Color::rgb(0, 0, 0)`: opaque black. */
  const BLACK: Color := 0xFF00_0000

  class Image {
    var w: int
    var h: int
    var data: array<Color>

    /** `Image::from_color`: `w * h` pixels, every one `color`. */
    constructor FromColor(width: nat, height: nat, color: Color)
      ensures w == width && h == height && fresh(data)
      ensures data.Length == width * height
      ensures forall k :: 0 <= k < data.Length ==> data[k] == color
    {
      w, h := width, height;
      data := new Color[width * height](_ => color);
    }

    /** `Image::new`: opaque black. */
    constructor New(width: nat, height: nat)
      ensures w == width && h == height && fresh(data)
      ensures data.Length == width * height
      ensures forall k :: 0 <= k < data.Length ==> data[k] == BLACK
    {
      w, h := width, height;
      data := new Color[width * height](_ => BLACK);
    }
  }

  /** Decoded and scaled image contents: width, height and row-major pixels. */
  datatype Pixmap = Pixmap(w: nat, h: nat, data: seq<Color>)

  /** Target index of row `oy`, column `ox` of the block that source pixel (`py`, `px`) fills. */
  function Target(width: int, s: int, py: int, oy: int, px: int, ox: int): int
  {
    (py * s + oy) * (width * s) + px * s + ox
  }

  predicate InBlock(width: int, height: int, s: int, py: int, oy: int, px: int, ox: int)
  {
    0 <= py < height && 0 <= oy < s && 0 <= px < width && 0 <= ox < s
  }

  /** Scan position of the four nested loops, compared lexicographically. */
  predicate LexBefore(a0: int, a1: int, a2: int, a3: int, b0: int, b1: int, b2: int, b3: int)
  {
    a0 < b0 || (a0 == b0 && (a1 < b1 || (a1 == b1 && (a2 < b2 || (a2 == b2 && a3 < b3)))))
  }

  lemma TargetDecode(width: int, s: int, py: int, oy: int, px: int, ox: int)
    requires width > 0 && s > 0 && 0 <= py && 0 <= oy < s && 0 <= px < width && 0 <= ox < s
    ensures var ww, t := width * s, Target(width, s, py, oy, px, ox);
      t / ww == py * s + oy && t % ww == px * s + ox &&
      (t / ww) / s == py && (t / ww) % s == oy && (t % ww) / s == px && (t % ww) % s == ox
  {
    MulMono(px + 1, width, s);
    DivModUnique(py * s + oy, px * s + ox, width * s);
    DivModUnique(py, oy, s);
    DivModUnique(px, ox, s);
  }

  /** Distinct (block, offset) coordinates name distinct target pixels. */
  lemma TargetInjective(width: int, height: int, s: int, py: int, oy: int, px: int, ox: int,
                        qy: int, ry: int, qx: int, rx: int)
    requires width > 0 && s > 0
    requires InBlock(width, height, s, py, oy, px, ox) && InBlock(width, height, s, qy, ry, qx, rx)
    requires Target(width, s, py, oy, px, ox) == Target(width, s, qy, ry, qx, rx)
    ensures py == qy && oy == ry && px == qx && ox == rx
  {
    TargetDecode(width, s, py, oy, px, ox);
    TargetDecode(width, s, qy, ry, qx, rx);
  }

  lemma TargetRange(width: int, height: int, s: int, py: int, oy: int, px: int, ox: int)
    requires width > 0 && s > 0 && InBlock(width, height, s, py, oy, px, ox)
    ensures 0 <= Target(width, s, py, oy, px, ox) < (height * s) * (width * s)
  {
    MulMono(px + 1, width, s);
    MulMono(0, px, s);
    MulMono(0, py, s);
    MulMono(0, py * s + oy, width * s);
    MulMono(py + 1, height, s);
    MulMono(py * s + oy + 1, height * s, width * s);
  }

  lemma DivMod(n: int, d: int)
    requires d > 0
    ensures n == (n / d) * d + n % d && 0 <= n % d < d
    ensures n >= 0 ==> n / d >= 0
  {
  }

  /** Every target index is the target of exactly the coordinates its division yields. */
  lemma TargetOf(width: int, height: int, s: int, q: int)
    requires width > 0 && s > 0 && 0 <= q < (height * s) * (width * s)
    ensures var ww := width * s;
      var py, oy, px, ox := (q / ww) / s, (q / ww) % s, (q % ww) / s, (q % ww) % s;
      InBlock(width, height, s, py, oy, px, ox) && q == Target(width, s, py, oy, px, ox)
  {
    var ww := width * s;
    var yy, xx := q / ww, q % ww;
    DivMod(q, ww);
    DivMod(yy, s);
    DivMod(xx, s);
    var py, oy, px, ox := yy / s, yy % s, xx / s, xx % s;
    assert px < width by {
      if px >= width {
        MulMono(width, px, s);
      }
    }
    assert yy < height * s by {
      if yy >= height * s {
        MulMono(height * s, yy, ww);
      }
    }
    assert py < height by {
      if py >= height {
        MulMono(height, py, s);
      }
    }
  }

  /** The source pixel that covers target index `q` of the up-scaled image. */
  function SourceOf(width: int, s: int, q: int): int
    requires width > 0 && s > 0
  {
    ((q / (width * s)) / s) * width + (q % (width * s)) / s
  }

  /** Every block the loops passed holds copies of its source pixel. */
  ghost predicate Replicated(out: seq<Color>, data: seq<Color>, width: int, height: int, s: int,
                             y: int, x: int, ys: int, xs: int)
  {
    forall py, oy, px, ox :: InBlock(width, height, s, py, oy, px, ox) && LexBefore(py, px, oy, ox, y, x, ys, xs) ==>
      Pick(out, Target(width, s, py, oy, px, ox)) == Pick(data, py * width + px)
  }

  lemma ReplicatedStep(o: seq<Color>, data: seq<Color>, width: int, height: int, s: int,
                       y: int, x: int, ys: int, xs: int)
    requires width > 0 && s > 0 && InBlock(width, height, s, y, ys, x, xs)
    requires 0 <= Target(width, s, y, ys, x, xs) < |o|
    requires Replicated(o, data, width, height, s, y, x, ys, xs)
    ensures Replicated(o[Target(width, s, y, ys, x, xs) := Pick(data, y * width + x)], data, width, height, s, y, x, ys, xs + 1)
  {
    var t := Target(width, s, y, ys, x, xs);
    var n := o[t := Pick(data, y * width + x)];
    forall py, oy, px, ox | InBlock(width, height, s, py, oy, px, ox) && LexBefore(py, px, oy, ox, y, x, ys, xs + 1)
      ensures Pick(n, Target(width, s, py, oy, px, ox)) == Pick(data, py * width + px)
    {
      if Target(width, s, py, oy, px, ox) == t {
        TargetInjective(width, height, s, py, oy, px, ox, y, ys, x, xs);
      }
    }
  }

  lemma ScaledLength(width: int, height: int, s: int)
    ensures width * height * (s * s) == (height * s) * (width * s)
  {
  }

  lemma SourceInRange(width: int, height: int, y: int, x: int)
    requires 0 <= y < height && 0 <= x < width
    ensures 0 <= y * width + x < width * height
  {
    MulMono(y + 1, height, width);
    MulMono(0, y, width);
  }

  lemma MulAssoc(a: int, b: int, c: int)
    ensures a * b * c == a * (b * c)
  {
  }

  /** Once every block is done, each target pixel holds the source pixel `SourceOf` names. */
  lemma Covered(out: seq<Color>, data: seq<Color>, width: int, height: int, s: int, q: int)
    requires width > 0 && s > 0 && |data| == width * height
    requires 0 <= q < |out| == (height * s) * (width * s)
    requires Replicated(out, data, width, height, s, height, 0, 0, 0)
    ensures 0 <= SourceOf(width, s, q) < |data| && out[q] == data[SourceOf(width, s, q)]
  {
    TargetOf(width, height, s, q);
    var ww := width * s;
    var py, oy, px, ox := (q / ww) / s, (q / ww) % s, (q % ww) / s, (q % ww) % s;
    assert SourceOf(width, s, q) == py * width + px;
    SourceInRange(width, height, py, px);
    assert LexBefore(py, px, oy, ox, height, 0, 0, 0);
    assert Pick(out, Target(width, s, py, oy, px, ox)) == Pick(data, py * width + px);
  }

  /**
   * The scaling step of `Image::from_path_scale` on already-decoded pixels:
   * scale 1 keeps the image, a scale below 1 is refused, and a larger scale
   * replicates every source pixel into an s x s block.
   */
  method ScaleUp(width: nat, height: nat, data: seq<Color>, scale: int) returns (r: Option<Pixmap>)
    requires |data| == width * height
    ensures scale < 1 <==> r.None?
    ensures scale == 1 ==> r == Some(Pixmap(width, height, data))
    ensures scale > 1 ==>
      r.Some? && r.value.w == width * scale && r.value.h == height * scale &&
      |r.value.data| == |data| * (scale * scale) &&
      (width > 0 ==> forall q :: 0 <= q < |r.value.data| ==>
         0 <= SourceOf(width, scale, q) < |data| && r.value.data[q] == data[SourceOf(width, scale, q)])
  {
    if scale == 1 {
      return Some(Pixmap(width, height, data));
    } else if scale < 1 {
      return None;
    }
    var s := scale;
    var out := new Color[|data| * (s * s)](_ => BLACK);
    ScaledLength(width, height, s);
    if width == 0 {
      return Some(Pixmap(width * s, height * s, out[..]));
    }
    var y := 0;
    while y < height
      invariant 0 <= y <= height
      invariant Replicated(out[..], data, width, height, s, y, 0, 0, 0)
    {
      var x := 0;
      while x < width
        invariant 0 <= x <= width
        invariant Replicated(out[..], data, width, height, s, y, x, 0, 0)
      {
        var i := y * width + x;
        SourceInRange(width, height, y, x);
        var value := data[i];
        var ys := 0;
        while ys < s
          invariant 0 <= ys <= s
          invariant Replicated(out[..], data, width, height, s, y, x, ys, 0)
        {
          var xs := 0;
          while xs < s
            invariant 0 <= xs <= s
            invariant Replicated(out[..], data, width, height, s, y, x, ys, xs)
          {
            var newI := (y * s + ys) * width * s + x * s + xs;
            MulAssoc(y * s + ys, width, s);
            TargetRange(width, height, s, y, ys, x, xs);
            ReplicatedStep(out[..], data, width, height, s, y, x, ys, xs);
            out[newI] := value;
            xs := xs + 1;
          }
          ys := ys + 1;
        }
        x := x + 1;
      }
      y := y + 1;
    }
    forall q | 0 <= q < out.Length
      ensures 0 <= SourceOf(width, s, q) < |data| && out[q] == data[SourceOf(width, s, q)]
    {
      Covered(out[..], data, width, height, s, q);
    }
    return Some(Pixmap(width * s, height * s, out[..]));
  }

  /** Bytes `ImageAligned::new` allocates: `w * h * 4` rounded up to a multiple of `align`. */
  function AlignedBytes(w: nat, h: nat, align: nat): nat
    requires align > 0
  {
    ((w * h * 4 + align - 1) / align) * align
  }

  /** The rounded allocation is the smallest multiple of `align` that holds every pixel. */
  lemma AlignedBytesSpec(w: nat, h: nat, align: nat)
    requires align > 0
    ensures AlignedBytes(w, h, align) % align == 0
    ensures w * h * 4 <= AlignedBytes(w, h, align) < w * h * 4 + align
    ensures align % 4 == 0 ==> AlignedBytes(w, h, align) / 4 >= w * h
  {
    var n := w * h * 4;
    var k := (n + align - 1) / align;
    var m := (n + align - 1) % align;
    assert n + align - 1 == k * align + m;
    DivModUnique(k, 0, align);
    if align % 4 == 0 {
      var a4 := align / 4;
      assert k * align == (k * a4) * 4;
      DivModUnique(k * a4, 0, 4);
    }
  }

  /** `ImageAligned`: a zeroed, page-aligned pixel buffer at least `w * h` long. */
  class ImageAligned {
    var w: nat
    var h: nat
    var data: array<Color>

    ghost predicate Valid() reads this {
      data.Length >= w * h
    }

    constructor (width: nat, height: nat, align: nat)
      requires align > 0 && align % 4 == 0
      ensures Valid() && w == width && h == height && fresh(data)
      ensures data.Length == AlignedBytes(width, height, align) / 4
      ensures forall k :: 0 <= k < data.Length ==> data[k] == 0
    {
      AlignedBytesSpec(width, height, align);
      var sizeBytes := width * height * 4;
      var sizeAlignments := (sizeBytes + align - 1) / align;
      var sizeAligned := sizeAlignments * align;
      w, h := width, height;
      data := new Color[sizeAligned / 4](_ => 0);
    }

    function Roi(rect: Rect): ImageRoi reads this {
      ImageRoi(rect, w, data)
    }
  }
}
