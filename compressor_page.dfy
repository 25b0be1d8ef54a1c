/** The crop fields of the routed ImageCompressor page (src/pages/ImageCompressor.jsx).
    An empty field reads as 0 and anything else goes through `parseInt`; a number
    is applied only while an image is mounted (`imgRef.current`), through the
    clamping arithmetic of `CropInputs`. */
module CompressorPage {
  import opened Wrappers
  import opened CropUtils
  import opened JsNumbers
  import opened CropInputs
  import opened CropControls

  /** `value === "" ? 0 : parseInt(value, 10)`, with `None` for NaN. */
  function TypedNumber(text: string): (r: Option<int>)
    ensures text == [] ==> r == Some(0)
    ensures r.None? <==> text != [] && LeadingDigits(DropSign(TrimStart(text))) == []
    ensures text != [] && r.Some? ==> r == ParseInt(text)
  {
    if text == [] then Some(0) else ParseInt(text)
  }

  /** The Width field: applied when the text reads as a number and an image is
      mounted; the crop's pixel width becomes `clamp(n, 1, natW - x_px)`. */
  function WidthInput(crop: Option<Rect>, text: string, mounted: bool, natW: real, natH: real): (r: Option<CropEdit>)
    requires mounted ==> natW > 0.0
    ensures r.Some? <==> mounted && TypedNumber(text).Some?
    ensures r.Some? ==> r.value == SetWidthPx(crop, TypedNumber(text).value as real, natW, natH)
  {
    var n := TypedNumber(text);
    if n.Some? && mounted then Some(SetWidthPx(crop, n.value as real, natW, natH)) else None
  }

  /** The Height field: pixel height `clamp(n, 1, natH - y_px)`. */
  function HeightInput(crop: Option<Rect>, text: string, mounted: bool, natW: real, natH: real): (r: Option<CropEdit>)
    requires mounted ==> natH > 0.0
    ensures r.Some? <==> mounted && TypedNumber(text).Some?
    ensures r.Some? ==> r.value == SetHeightPx(crop, TypedNumber(text).value as real, natW, natH)
  {
    var n := TypedNumber(text);
    if n.Some? && mounted then Some(SetHeightPx(crop, n.value as real, natW, natH)) else None
  }

  /** Position (X): pixel offset `clamp(n, 0, natW - width_px)`. */
  function XInput(crop: Option<Rect>, text: string, mounted: bool, natW: real, natH: real): (r: Option<CropEdit>)
    requires mounted ==> natW > 0.0
    ensures r.Some? <==> mounted && TypedNumber(text).Some?
    ensures r.Some? ==> r.value == SetXPx(crop, TypedNumber(text).value as real, natW, natH)
  {
    var n := TypedNumber(text);
    if n.Some? && mounted then Some(SetXPx(crop, n.value as real, natW, natH)) else None
  }

  /** Position (Y): pixel offset `clamp(n, 0, natH - height_px)`. */
  function YInput(crop: Option<Rect>, text: string, mounted: bool, natW: real, natH: real): (r: Option<CropEdit>)
    requires mounted ==> natH > 0.0
    ensures r.Some? <==> mounted && TypedNumber(text).Some?
    ensures r.Some? ==> r.value == SetYPx(crop, TypedNumber(text).value as real, natW, natH)
  {
    var n := TypedNumber(text);
    if n.Some? && mounted then Some(SetYPx(crop, n.value as real, natW, natH)) else None
  }

  /** `handleCustomRatioClick`: clears the aspect and, with an image mounted, selects
      the whole image. The page defines this handler but attaches it to no element. */
  function CustomRatioClick(mounted: bool, shownWidth: real, shownHeight: real): (r: AspectChange)
    ensures r.aspect.None?
    ensures r.edit.Some? <==> mounted
    ensures r.edit.Some? ==> r.edit.value.crop == FullRect
    ensures r.edit.Some? ==> r.edit.value.completed == Rect(0.0, 0.0, shownWidth, shownHeight)
  {
    if mounted then
      AspectChange(None, Some(CropEdit(FullRect, ToPixelCrop(FullRect, shownWidth, shownHeight))))
    else
      AspectChange(None, None)
  }

  /** `handleCustomRatioClick`, were it attached to an element (the page defines
      it but no element calls it), would do exactly what choosing "Custom" in the
      Crop Option select does. */
  lemma CustomRatioIsCustomOption(mounted: bool, shownWidth: real, shownHeight: real, libraryCrop: Rect)
    ensures CustomRatioClick(mounted, shownWidth, shownHeight)
      == AspectSelect(None, mounted, shownWidth, shownHeight, libraryCrop)
  {
  }

  /** A field's displayed integer reads back as that integer. */
  lemma TypedNumberOfShown(n: int)
    ensures TypedNumber(IntToString(n)) == Some(n)
  {
    ParseIntOfIntToString(n);
  }

  /** Clearing the Width field while there is room gives a crop one pixel wide. */
  lemma ClearedWidthIsOnePixel(crop: Option<Rect>, natW: real, natH: real)
    requires natW > 0.0
    requires Base(crop).x / 100.0 * natW <= natW - 1.0
    ensures WidthInput(crop, "", true, natW, natH).Some?
    ensures WidthInput(crop, "", true, natW, natH).value.completed.width == 1.0
  {
  }

  /** Typing back the width a crop already has (an integer that fits) leaves the
      crop as it was. */
  lemma RetypingShownWidthKeepsCrop(c: Rect, n: int, natW: real, natH: real)
    requires natW > 0.0
    requires n as real == c.width / 100.0 * natW
    requires 1 <= n && c.x / 100.0 * natW + n as real <= natW
    ensures WidthInput(Some(c), IntToString(n), true, natW, natH) == Some(CropEdit(c, ToPixelCrop(c, natW, natH)))
  {
    TypedNumberOfShown(n);
    SameWidthKeepsCrop(c, n as real, natW, natH);
  }

  lemma SameWidthKeepsCrop(c: Rect, v: real, natW: real, natH: real)
    requires natW > 0.0
    requires v == c.width / 100.0 * natW
    requires 1.0 <= v && c.x / 100.0 * natW + v <= natW
    ensures SetWidthPx(Some(c), v, natW, natH) == CropEdit(c, ToPixelCrop(c, natW, natH))
  {
    var e := SetWidthPx(Some(c), v, natW, natH);
    CancelFactor(e.crop.width, c.width, natW);
  }

  /** Typing back the X offset a crop already has (an integer that fits) leaves
      the crop as it was. */
  lemma RetypingShownXKeepsCrop(c: Rect, n: int, natW: real, natH: real)
    requires natW > 0.0
    requires n as real == c.x / 100.0 * natW
    requires 0 <= n && n as real + c.width / 100.0 * natW <= natW
    ensures XInput(Some(c), IntToString(n), true, natW, natH) == Some(CropEdit(c, ToPixelCrop(c, natW, natH)))
  {
    TypedNumberOfShown(n);
    SameXKeepsCrop(c, n as real, natW, natH);
  }

  lemma SameXKeepsCrop(c: Rect, v: real, natW: real, natH: real)
    requires natW > 0.0
    requires v == c.x / 100.0 * natW
    requires 0.0 <= v && v + c.width / 100.0 * natW <= natW
    ensures SetXPx(Some(c), v, natW, natH) == CropEdit(c, ToPixelCrop(c, natW, natH))
  {
    var e := SetXPx(Some(c), v, natW, natH);
    CancelFactor(e.crop.x, c.x, natW);
  }

  lemma CancelFactor(a: real, b: real, size: real)
    requires size > 0.0 && a / 100.0 * size == b / 100.0 * size
    ensures a == b
  {
  }
}
