/** The arithmetic both ImageCompressor pages run when a number is typed into the
    Width, Height, Position (X) or Position (Y) field: the number is a pixel value,
    it is clamped so that the crop stays on the image, and it is stored back as a
    percentage of the natural image size. Only the field typed into changes. */
module CropInputs {
  import opened Wrappers
  import opened CropUtils

  /** A pixel length `px` expressed in percent of `size`, compared with a percent
      bound: the conversion preserves order and maps 0 to 0. */
  lemma PercentOfPixels(px: real, pct: real, size: real)
    requires size > 0.0
    ensures px <= size - pct / 100.0 * size <==> px / size * 100.0 <= 100.0 - pct
    ensures 0.0 <= px <==> 0.0 <= px / size * 100.0
    ensures (px / size * 100.0) / 100.0 * size == px
  {
    var q := px / size * 100.0;
    var a := (100.0 - pct) / 100.0;
    var b := q / 100.0;
    assert b * size == px;
    assert a * size == size - pct / 100.0 * size;
    if q <= 100.0 - pct {
      MulMonotone(b, a, size);
    } else {
      MulStrict(a, b, size);
    }
  }

  lemma MulStrict(a: real, b: real, c: real)
    requires a < b && 0.0 < c
    ensures a * c < b * c
  {
  }

  /** A typed pixel value clamped to `[lo, size - other_px]`, where `other` is the
      percent taken by the crop's partner value on the same axis (the offset for
      a side, the side for an offset), and stored back in percent of `size`. */
  function ClampedPercent(px: real, lo: real, other: real, size: real): (q: real)
    requires size > 0.0
    ensures q / 100.0 * size == Clamp(px, lo, size - other / 100.0 * size)
    ensures other + q <= 100.0
    ensures 0.0 <= lo && other <= 100.0 ==> 0.0 <= q
  {
    var hi := size - other / 100.0 * size;
    var clamped := Clamp(px, lo, hi);
    PercentOfPixels(clamped, other, size);
    assert other <= 100.0 ==> 0.0 <= hi by {
      if other <= 100.0 {
        MulMonotone(other / 100.0, 1.0, size);
      }
    }
    clamped / size * 100.0
  }

  /** The Width field: `clamp(newWidth, 1, natW - x_px)`, stored as `width` only. */
  function SetWidthPx(crop: Option<Rect>, newWidth: real, natW: real, natH: real): (e: CropEdit)
    requires natW > 0.0
    ensures var b := Base(crop); var xPx := b.x / 100.0 * natW;
      && e.crop == b.(width := e.crop.width)
      && e.crop.width / 100.0 * natW == Clamp(newWidth, 1.0, natW - xPx)
      && b.x + e.crop.width <= 100.0
      && (natW - xPx >= 1.0 ==> 1.0 <= e.crop.width / 100.0 * natW)
      && (InPercentBounds(b) ==> InPercentBounds(e.crop))
      && e.completed == ToPixelCrop(e.crop, natW, natH)
  {
    var b := Base(crop);
    var c := b.(width := ClampedPercent(newWidth, 1.0, b.x, natW));
    CropEdit(c, ToPixelCrop(c, natW, natH))
  }

  /** The Height field: `clamp(newHeight, 1, natH - y_px)`, stored as `height` only. */
  function SetHeightPx(crop: Option<Rect>, newHeight: real, natW: real, natH: real): (e: CropEdit)
    requires natH > 0.0
    ensures var b := Base(crop); var yPx := b.y / 100.0 * natH;
      && e.crop == b.(height := e.crop.height)
      && e.crop.height / 100.0 * natH == Clamp(newHeight, 1.0, natH - yPx)
      && b.y + e.crop.height <= 100.0
      && (natH - yPx >= 1.0 ==> 1.0 <= e.crop.height / 100.0 * natH)
      && (InPercentBounds(b) ==> InPercentBounds(e.crop))
      && e.completed == ToPixelCrop(e.crop, natW, natH)
  {
    var b := Base(crop);
    var c := b.(height := ClampedPercent(newHeight, 1.0, b.y, natH));
    CropEdit(c, ToPixelCrop(c, natW, natH))
  }

  /** Position (X): `clamp(newX, 0, natW - width_px)`, stored as `x` only. */
  function SetXPx(crop: Option<Rect>, newX: real, natW: real, natH: real): (e: CropEdit)
    requires natW > 0.0
    ensures var b := Base(crop); var widthPx := b.width / 100.0 * natW;
      && e.crop == b.(x := e.crop.x)
      && e.crop.x / 100.0 * natW == Clamp(newX, 0.0, natW - widthPx)
      && e.crop.x + b.width <= 100.0
      && (b.width <= 100.0 ==> 0.0 <= e.crop.x)
      && (InPercentBounds(b) ==> InPercentBounds(e.crop))
      && e.completed == ToPixelCrop(e.crop, natW, natH)
  {
    var b := Base(crop);
    var c := b.(x := ClampedPercent(newX, 0.0, b.width, natW));
    CropEdit(c, ToPixelCrop(c, natW, natH))
  }

  /** Position (Y): `clamp(newY, 0, natH - height_px)`, stored as `y` only. */
  function SetYPx(crop: Option<Rect>, newY: real, natW: real, natH: real): (e: CropEdit)
    requires natH > 0.0
    ensures var b := Base(crop); var heightPx := b.height / 100.0 * natH;
      && e.crop == b.(y := e.crop.y)
      && e.crop.y / 100.0 * natH == Clamp(newY, 0.0, natH - heightPx)
      && e.crop.y + b.height <= 100.0
      && (b.height <= 100.0 ==> 0.0 <= e.crop.y)
      && (InPercentBounds(b) ==> InPercentBounds(e.crop))
      && e.completed == ToPixelCrop(e.crop, natW, natH)
  {
    var b := Base(crop);
    var c := b.(y := ClampedPercent(newY, 0.0, b.height, natH));
    CropEdit(c, ToPixelCrop(c, natW, natH))
  }

  /** One typed number, by field. */
  datatype FieldInput = WidthPx(w: real) | HeightPx(h: real) | XPx(x: real) | YPx(y: real)

  /** The crop after one typed number. */
  function ApplyInput(crop: Rect, i: FieldInput, natW: real, natH: real): Rect
    requires natW > 0.0 && natH > 0.0
  {
    match i
    case WidthPx(w) => SetWidthPx(Some(crop), w, natW, natH).crop
    case HeightPx(h) => SetHeightPx(Some(crop), h, natW, natH).crop
    case XPx(x) => SetXPx(Some(crop), x, natW, natH).crop
    case YPx(y) => SetYPx(Some(crop), y, natW, natH).crop
  }

  /** The crop after a sequence of typed numbers, first to last. */
  function ApplyInputs(crop: Rect, inputs: seq<FieldInput>, natW: real, natH: real): Rect
    requires natW > 0.0 && natH > 0.0
    decreases |inputs|
  {
    if inputs == [] then crop
    else ApplyInputs(ApplyInput(crop, inputs[0], natW, natH), inputs[1..], natW, natH)
  }

  /** Each of the four fields keeps a crop that lies inside the image inside it. */
  lemma ApplyInputKeepsInside(crop: Rect, i: FieldInput, natW: real, natH: real)
    requires natW > 0.0 && natH > 0.0 && InPercentBounds(crop)
    ensures InPercentBounds(ApplyInput(crop, i, natW, natH))
  {
  }

  /** Whatever numbers are typed into the four fields, in whatever order, a crop
      that starts inside the image stays inside it. */
  lemma {:induction false} ApplyInputsKeepInside(crop: Rect, inputs: seq<FieldInput>, natW: real, natH: real)
    requires natW > 0.0 && natH > 0.0 && InPercentBounds(crop)
    ensures InPercentBounds(ApplyInputs(crop, inputs, natW, natH))
    decreases |inputs|
  {
    if inputs != [] {
      ApplyInputKeepsInside(crop, inputs[0], natW, natH);
      ApplyInputsKeepInside(ApplyInput(crop, inputs[0], natW, natH), inputs[1..], natW, natH);
    }
  }
}
