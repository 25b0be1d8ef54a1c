/** The stateless handlers of src/components/CropControls.jsx. Each computes the new
    crop from the current one and returns it, or `None` when the input is rejected
    and neither `setCrop` nor `setCompletedCrop` is called. `mounted` says whether
    `imgRef.current` is set, i.e. whether an image is on the page; `parsed` is
    `parseInt` of the typed text (`JsNumbers.ParseInt`), `None` standing for NaN. */
module CropControls {
  import opened Wrappers
  import opened CropUtils

  /** What choosing an entry of the "Crop Option" select does: the aspect it stores
      and, when an image is shown, the crop it sets. */
  datatype AspectChange = AspectChange(aspect: Option<real>, edit: Option<CropEdit>)

  lemma DivByRatio(v: real, a: real, b: real)
    requires a > 0.0 && b > 0.0
    ensures (v / (a / b)) / b == v / a
    ensures (v * (a / b)) / a == v / b
  {
  }

  lemma PercentRoundTrip(v: real, size: real)
    requires size > 0.0
    ensures (v / size * 100.0) / 100.0 * size == v
    ensures v <= size ==> v / size * 100.0 <= 100.0
  {
    if v <= size {
      assert v / size <= 1.0;
    }
  }

  /** The crop with pixel width `w` whose height keeps the image's ratio
      `natW / natH`, at the same position. */
  function KeepShapeByWidth(b: Rect, w: real, natW: real, natH: real): (e: CropEdit)
    requires natW > 0.0 && natH > 0.0
    ensures e.crop.x == b.x && e.crop.y == b.y
    ensures e.crop.width / 100.0 * natW == w && e.crop.height == e.crop.width
    ensures e.completed == ToPixelCrop(e.crop, natW, natH)
    ensures e.completed.width * natH == e.completed.height * natW
  {
    SquarePercentIsImageShape(w / natW * 100.0, natW, natH);
    var aspectRatio := natW / natH;
    var newHeight := w / aspectRatio;
    DivByRatio(w, natW, natH);
    PercentRoundTrip(w, natW);
    var c := b.(width := w / natW * 100.0, height := newHeight / natH * 100.0);
    CropEdit(c, ToPixelCrop(c, natW, natH))
  }

  /** The crop with pixel height `h` whose width keeps the image's ratio. */
  function KeepShapeByHeight(b: Rect, h: real, natW: real, natH: real): (e: CropEdit)
    requires natW > 0.0 && natH > 0.0
    ensures e.crop.x == b.x && e.crop.y == b.y
    ensures e.crop.height / 100.0 * natH == h && e.crop.width == e.crop.height
    ensures e.completed == ToPixelCrop(e.crop, natW, natH)
    ensures e.completed.width * natH == e.completed.height * natW
  {
    SquarePercentIsImageShape(h / natW * 100.0, natW, natH);
    var aspectRatio := natW / natH;
    var newWidth := h * aspectRatio;
    DivByRatio(h, natW, natH);
    PercentRoundTrip(h, natH);
    var c := b.(width := newWidth / natW * 100.0, height := h / natH * 100.0);
    CropEdit(c, ToPixelCrop(c, natW, natH))
  }

  /** The crop moved so that its left edge is at pixel `px`; nothing else changes. */
  function MoveLeftEdge(b: Rect, px: real, natW: real, natH: real): (e: CropEdit)
    requires natW > 0.0
    ensures e.crop == b.(x := e.crop.x)
    ensures e.crop.x / 100.0 * natW == px
    ensures px <= natW ==> e.crop.x <= 100.0
    ensures e.completed == ToPixelCrop(e.crop, natW, natH)
  {
    PercentRoundTrip(px, natW);
    var c := b.(x := px / natW * 100.0);
    CropEdit(c, ToPixelCrop(c, natW, natH))
  }

  /** The crop moved so that its top edge is at pixel `px`; nothing else changes. */
  function MoveTopEdge(b: Rect, px: real, natW: real, natH: real): (e: CropEdit)
    requires natH > 0.0
    ensures e.crop == b.(y := e.crop.y)
    ensures e.crop.y / 100.0 * natH == px
    ensures px <= natH ==> e.crop.y <= 100.0
    ensures e.completed == ToPixelCrop(e.crop, natW, natH)
  {
    PercentRoundTrip(px, natH);
    var c := b.(y := px / natH * 100.0);
    CropEdit(c, ToPixelCrop(c, natW, natH))
  }

  /** Width field: accepted when `parseInt` succeeds and the width is at most the
      natural width; the height is derived from the image's own aspect ratio. */
  function WidthChange(crop: Option<Rect>, parsed: Option<int>, mounted: bool, natW: real, natH: real): (r: Option<CropEdit>)
    requires mounted ==> natW > 0.0 && natH > 0.0
    ensures r.Some? <==> mounted && parsed.Some? && parsed.value as real <= natW
    ensures r.Some? ==>
      && r.value.crop.x == Base(crop).x && r.value.crop.y == Base(crop).y
      && r.value.crop.width / 100.0 * natW == parsed.value as real
      && r.value.crop.height == r.value.crop.width
      && r.value.completed == ToPixelCrop(r.value.crop, natW, natH)
      && r.value.completed.width * natH == r.value.completed.height * natW
  {
    if parsed.Some? && mounted && parsed.value as real <= natW then
      Some(KeepShapeByWidth(Base(crop), parsed.value as real, natW, natH))
    else
      None
  }

  /** Height field: accepted when `parseInt` succeeds and the height is at most the
      natural height; the width is derived from the image's own aspect ratio. */
  function HeightChange(crop: Option<Rect>, parsed: Option<int>, mounted: bool, natW: real, natH: real): (r: Option<CropEdit>)
    requires mounted ==> natW > 0.0 && natH > 0.0
    ensures r.Some? <==> mounted && parsed.Some? && parsed.value as real <= natH
    ensures r.Some? ==>
      && r.value.crop.x == Base(crop).x && r.value.crop.y == Base(crop).y
      && r.value.crop.height / 100.0 * natH == parsed.value as real
      && r.value.crop.width == r.value.crop.height
      && r.value.completed == ToPixelCrop(r.value.crop, natW, natH)
      && r.value.completed.width * natH == r.value.completed.height * natW
  {
    if parsed.Some? && mounted && parsed.value as real <= natH then
      Some(KeepShapeByHeight(Base(crop), parsed.value as real, natW, natH))
    else
      None
  }

  /** Position (X): accepted when `parseInt` succeeds and `newX <= natW` (there is
      no lower bound); only `x` changes. */
  function XChange(crop: Option<Rect>, parsed: Option<int>, mounted: bool, natW: real, natH: real): (r: Option<CropEdit>)
    requires mounted ==> natW > 0.0
    ensures r.Some? <==> mounted && parsed.Some? && parsed.value as real <= natW
    ensures r.Some? ==>
      && r.value.crop == Base(crop).(x := r.value.crop.x)
      && r.value.crop.x / 100.0 * natW == parsed.value as real
      && r.value.crop.x <= 100.0
      && r.value.completed == ToPixelCrop(r.value.crop, natW, natH)
  {
    if parsed.Some? && mounted && parsed.value as real <= natW then
      Some(MoveLeftEdge(Base(crop), parsed.value as real, natW, natH))
    else
      None
  }

  /** Position (Y): accepted when `parseInt` succeeds and `newY <= natH`; only `y`
      changes. */
  function YChange(crop: Option<Rect>, parsed: Option<int>, mounted: bool, natW: real, natH: real): (r: Option<CropEdit>)
    requires mounted ==> natH > 0.0
    ensures r.Some? <==> mounted && parsed.Some? && parsed.value as real <= natH
    ensures r.Some? ==>
      && r.value.crop == Base(crop).(y := r.value.crop.y)
      && r.value.crop.y / 100.0 * natH == parsed.value as real
      && r.value.crop.y <= 100.0
      && r.value.completed == ToPixelCrop(r.value.crop, natW, natH)
  {
    if parsed.Some? && mounted && parsed.value as real <= natH then
      Some(MoveTopEdge(Base(crop), parsed.value as real, natW, natH))
    else
      None
  }

  /** The "Crop Option" select. `parsed` is `parseFloat` of the option's value
      (`None` for NaN: the "Custom" entry, whose value is empty). The stored aspect is
      `newAspect || undefined`; the crop is the full image for NaN and otherwise
      `centerAspectCrop(width, height, newAspect)`, a library result passed in as
      `libraryCrop`. `shownWidth`/`shownHeight` are the image's rendered size. The
      same handler appears in both ImageCompressor pages. */
  function AspectSelect(parsed: Option<real>, mounted: bool, shownWidth: real, shownHeight: real, libraryCrop: Rect): (r: AspectChange)
    ensures r.aspect.None? <==> parsed.None? || parsed == Some(0.0)
    ensures r.aspect.Some? ==> r.aspect == parsed
    ensures r.edit.Some? <==> mounted
    ensures r.edit.Some? && parsed.None? ==> r.edit.value.crop == FullRect
    ensures r.edit.Some? && parsed.Some? ==> r.edit.value.crop == libraryCrop
    ensures r.edit.Some? ==> r.edit.value.completed == ToPixelCrop(r.edit.value.crop, shownWidth, shownHeight)
  {
    var aspect := if parsed.None? || parsed.value == 0.0 then None else parsed;
    if mounted then
      var c := if parsed.None? then FullRect else libraryCrop;
      AspectChange(aspect, Some(CropEdit(c, ToPixelCrop(c, shownWidth, shownHeight))))
    else
      AspectChange(aspect, None)
  }

  /** Equal percentages of the two sides make a rectangle of the image's shape. */
  lemma SquarePercentIsImageShape(p: real, natW: real, natH: real)
    ensures p / 100.0 * natW * natH == p / 100.0 * natH * natW
  {
  }
}
