/** Crop rectangles and the two conversions every page shares:
    `convertToPixelCrop` (src/utils/cropUtils.js, with identical local copies in
    Resizer.jsx and both ImageCompressor pages) and `clamp`. */
module CropUtils {
  import opened Wrappers

  /** A crop rectangle `{ x, y, width, height }`. The same shape is used in percent
      space (fractions of the natural image size, times 100) and in pixel space. */
  datatype Rect = Rect(x: real, y: real, width: real, height: real)

  /** What an input handler hands to `setCrop` and `setCompletedCrop`. */
  datatype CropEdit = CropEdit(crop: Rect, completed: Rect)

  /** The full-image percent rectangle `{ width: 100, height: 100, x: 0, y: 0 }`. */
  const FullRect: Rect := Rect(0.0, 0.0, 100.0, 100.0)

  /** `{ ...crop }` where `crop` may be undefined: the fields of an undefined crop
      read as 0 here (`crop?.x || 0`). */
  function Base(crop: Option<Rect>): Rect {
    crop.GetOr(Rect(0.0, 0.0, 0.0, 0.0))
  }

  /** JavaScript truthiness of a number that may be undefined or NaN (`None`):
      0 is falsy as well. */
  predicate Truthy(v: Option<real>) {
    v.Some? && v.value != 0.0
  }

  /** A percent rectangle that lies inside the image. */
  predicate InPercentBounds(r: Rect) {
    && 0.0 <= r.x && 0.0 <= r.y && 0.0 <= r.width && 0.0 <= r.height
    && r.x + r.width <= 100.0 && r.y + r.height <= 100.0
  }

  /** A pixel rectangle that lies inside an image of the given size. */
  predicate InPixelBounds(r: Rect, imgWidth: real, imgHeight: real) {
    && 0.0 <= r.x && 0.0 <= r.y && 0.0 <= r.width && 0.0 <= r.height
    && r.x + r.width <= imgWidth && r.y + r.height <= imgHeight
  }

  /** `convertToPixelCrop(percentageCrop, imgWidth, imgHeight)`. */
  function ToPixelCrop(pct: Rect, imgWidth: real, imgHeight: real): Rect {
    Rect(pct.x / 100.0 * imgWidth, pct.y / 100.0 * imgHeight,
         pct.width / 100.0 * imgWidth, pct.height / 100.0 * imgHeight)
  }

  /** The inverse the input handlers apply to a pixel value: `(px / natural) * 100`. */
  function ToPercentCrop(px: Rect, imgWidth: real, imgHeight: real): Rect
    requires imgWidth != 0.0 && imgHeight != 0.0
  {
    Rect(px.x / imgWidth * 100.0, px.y / imgHeight * 100.0,
         px.width / imgWidth * 100.0, px.height / imgHeight * 100.0)
  }

  /** `clamp(value, min, max) = Math.min(Math.max(value, min), max)`. */
  function Clamp(value: real, lo: real, hi: real): (r: real)
    ensures r <= hi
    ensures lo <= hi ==> lo <= r
    ensures lo <= value <= hi ==> r == value
    ensures value < lo && lo <= hi ==> r == lo
    ensures hi < value ==> r == hi
    ensures hi < lo ==> r == hi
  {
    if value < lo then (if lo < hi then lo else hi)
    else if value < hi then value else hi
  }

  /** Scaling by a factor in [0, 1] keeps a value between 0 and the image size. */
  lemma ScaleWithin(p: real, size: real)
    requires 0.0 <= p <= 100.0 && 0.0 <= size
    ensures 0.0 <= p / 100.0 * size <= size
  {
    assert p / 100.0 * size <= 1.0 * size by {
      MulMonotone(p / 100.0, 1.0, size);
    }
  }

  lemma MulMonotone(a: real, b: real, c: real)
    requires a <= b && 0.0 <= c
    ensures a * c <= b * c
  {
  }

  /** The horizontal outputs depend only on the image width, the vertical ones only
      on the image height. */
  lemma PixelCropAxesIndependent(pct: Rect, w1: real, h1: real, w2: real, h2: real)
    ensures ToPixelCrop(pct, w1, h1).x == ToPixelCrop(pct, w1, h2).x
    ensures ToPixelCrop(pct, w1, h1).width == ToPixelCrop(pct, w1, h2).width
    ensures ToPixelCrop(pct, w1, h1).y == ToPixelCrop(pct, w2, h1).y
    ensures ToPixelCrop(pct, w1, h1).height == ToPixelCrop(pct, w2, h1).height
  {
  }

  /** 0% maps to 0 px and 100% to the whole dimension. */
  lemma PixelCropEnds(imgWidth: real, imgHeight: real)
    ensures ToPixelCrop(FullRect, imgWidth, imgHeight) == Rect(0.0, 0.0, imgWidth, imgHeight)
  {
  }

  /** One axis of the containment: an offset and a length whose sum is at most 100%
      stay within the image's extent on that axis. */
  lemma AxisContained(offset: real, length: real, size: real)
    requires 0.0 <= offset && 0.0 <= length && offset + length <= 100.0 && 0.0 <= size
    ensures 0.0 <= offset / 100.0 * size && 0.0 <= length / 100.0 * size
    ensures offset / 100.0 * size + length / 100.0 * size <= size
  {
    ScaleWithin(offset, size);
    ScaleWithin(length, size);
    ScaleWithin(offset + length, size);
    assert offset / 100.0 * size + length / 100.0 * size == (offset + length) / 100.0 * size;
  }

  /** A percent rectangle inside the image maps to a pixel rectangle inside it. */
  lemma PixelCropContained(pct: Rect, imgWidth: real, imgHeight: real)
    requires InPercentBounds(pct) && 0.0 <= imgWidth && 0.0 <= imgHeight
    ensures InPixelBounds(ToPixelCrop(pct, imgWidth, imgHeight), imgWidth, imgHeight)
  {
    AxisContained(pct.x, pct.width, imgWidth);
    AxisContained(pct.y, pct.height, imgHeight);
  }

  /** Converting to pixels and back recovers the percent rectangle, and converting a
      pixel rectangle to percent and back recovers it. */
  lemma PixelPercentRoundTrip(r: Rect, imgWidth: real, imgHeight: real)
    requires imgWidth != 0.0 && imgHeight != 0.0
    ensures ToPercentCrop(ToPixelCrop(r, imgWidth, imgHeight), imgWidth, imgHeight) == r
    ensures ToPixelCrop(ToPercentCrop(r, imgWidth, imgHeight), imgWidth, imgHeight) == r
  {
  }
}
