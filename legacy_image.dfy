// The older pixel buffer of src/image.rs. Its row iterators compute each slice
// from the row counter exactly as `CoreImage.RoiRows` does (both the shared and
// the mutable one), and its images are built as `CoreImage.Image`; what it adds
// is `set`, which paints one colour over a whole ROI.
module LegacyImage {
  import opened Helpers
  import opened Rects
  import opened Pixels
  import opened CoreImage

  /** `ImageRoi::blend`: the per-pixel alpha blend over the zipped rows. */
  method Blend(self: ImageRoi, other: ImageRoi)
    requires self.data != other.data
    requires Inside(self.Geometry(), self.data.Length) && Inside(other.Geometry(), other.data.Length)
    modifies self.data
    ensures var rows, cols := Min(self.rect.h, other.rect.h), Min(self.rect.w, other.rect.w);
      forall p :: 0 <= p < self.data.Length ==>
        self.data[p] == if InZone(self.Geometry(), rows, cols, p)
          then BlendPixel(old(self.data[p]),
                          Pick(other.data[..], At(other.Geometry(), RowOf(self.Geometry(), p), ColOf(self.Geometry(), p))))
          else old(self.data[p])
  {
    ZipRows(self.data, self.Geometry(), other.data, other.Geometry(), BlendPixel);
  }

  /** `ImageRoi::blit`: copy `min(row lengths)` pixels of each zipped row. */
  method Blit(self: ImageRoi, other: ImageRoi)
    requires self.data != other.data
    requires Inside(self.Geometry(), self.data.Length) && Inside(other.Geometry(), other.data.Length)
    modifies self.data
    ensures var rows, cols := Min(self.rect.h, other.rect.h), Min(self.rect.w, other.rect.w);
      forall p :: 0 <= p < self.data.Length ==>
        self.data[p] == if InZone(self.Geometry(), rows, cols, p)
          then Pick(other.data[..], At(other.Geometry(), RowOf(self.Geometry(), p), ColOf(self.Geometry(), p)))
          else old(self.data[p])
  {
    ZipRows(self.data, self.Geometry(), other.data, other.Geometry(), Replace);
  }

  /**
   * `ImageRoi::set`: an opaque colour fills the ROI, a transparent one leaves it
   * alone, and any other colour is mixed into every ROI pixel with the same
   * weights; in every case each ROI pixel ends as `BlendPixel(pixel, color)`
   * and nothing outside the ROI changes.
   */
  method Set(self: ImageRoi, color: Color)
    requires Inside(self.Geometry(), self.data.Length)
    modifies self.data
    ensures forall p :: 0 <= p < self.data.Length ==>
      self.data[p] == if InZone(self.Geometry(), self.rect.h, self.rect.w, p)
        then BlendPixel(old(self.data[p]), color) else old(self.data[p])
    ensures Alpha(color) >= 255 ==> forall p :: 0 <= p < self.data.Length ==>
      self.data[p] == if InZone(self.Geometry(), self.rect.h, self.rect.w, p) then color else old(self.data[p])
    ensures Alpha(color) == 0 ==> self.data[..] == old(self.data[..])
  {
    var alpha := Alpha(color);
    if alpha >= 255 {
      MapRows(self.data, self.Geometry(), _ => color);
    } else if alpha > 0 {
      MapRows(self.data, self.Geometry(), pixel => BlendPixel(pixel, color));
    }
  }
}
