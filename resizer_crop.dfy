/** The crop arithmetic of the Resizer page (src/pages/imageReszer/Resizer.jsx):
    the size presets, `handleDimensionChange`, the Width and Height fields that
    feed it in pixels, inches or centimetres, and the size slider shown in
    percent mode. Crops here are percent rectangles, and `completedCrop` holds
    percent values too. */
module ResizerCrop {
  import opened Wrappers
  import opened CropUtils
  import opened JsNumbers
  import opened Units

  /** The crop set on load when no aspect is chosen: 60% by 60%, centred. */
  const ResizerDefaultCrop: Rect := Rect(20.0, 20.0, 60.0, 60.0)

  /** A percent rectangle centred on the image. */
  predicate Centred(r: Rect) {
    r.x == (100.0 - r.width) / 2.0 && r.y == (100.0 - r.height) / 2.0
  }

  lemma ResizerDefaultCropIsCentred()
    ensures Centred(ResizerDefaultCrop) && InPercentBounds(ResizerDefaultCrop)
  {
  }

  function Max(a: real, b: real): real { if a < b then b else a }
  function Min(a: real, b: real): real { if a < b then a else b }

  /** A crop size in percent, before the library centres it. */
  datatype Size = Size(width: real, height: real)

  /** What a preset does: the aspect it stores and, with an image mounted, the size
      of the crop handed to `centerCrop`. */
  datatype Preset = Preset(aspect: real, size: Option<Size>)

  /** `handlePresetChange`: `w` and `h` are the two numbers of the option's "W x H"
      text (`None` for NaN). The crop is 100% wide unless that makes it more than
      100% tall, in which case it is 100% tall. */
  method PresetChange(w: Option<real>, h: Option<real>, mounted: bool) returns (r: Option<Preset>)
    ensures r.None? <==> !Truthy(w) || !Truthy(h)
    ensures r.Some? ==> r.value.aspect == w.value / h.value
    ensures r.Some? ==> (r.value.size.Some? <==> mounted)
    ensures r.Some? && r.value.size.Some? ==>
      r.value.size.value.width * h.value == r.value.size.value.height * w.value
    ensures r.Some? && r.value.size.Some? && w.value > 0.0 && h.value > 0.0 ==>
      var s := r.value.size.value;
      && 0.0 < s.width <= 100.0 && 0.0 < s.height <= 100.0
      && (s.width == 100.0 || s.height == 100.0)
  {
    if !Truthy(w) || !Truthy(h) {
      return None;
    }
    var width := w.value;
    var height := h.value;
    var newAspect := width / height;
    if !mounted {
      return Some(Preset(newAspect, None));
    }
    var cropWidth := 100.0;
    var cropHeight := (height / width) * cropWidth;
    if cropHeight > 100.0 {
      cropHeight := 100.0;
      cropWidth := (width / height) * cropHeight;
      TallPresetFits(width, height);
    } else {
      WidePresetFits(width, height);
    }
    return Some(Preset(newAspect, Some(Size(cropWidth, cropHeight))));
  }

  lemma MulStrict(a: real, b: real, c: real)
    requires a < b && 0.0 < c
    ensures a * c < b * c
  {
  }

  lemma WidePresetFits(w: real, h: real)
    requires w != 0.0
    ensures 100.0 * h == ((h / w) * 100.0) * w
    ensures w > 0.0 && h > 0.0 ==> 0.0 < (h / w) * 100.0
  {
  }

  lemma TallPresetFits(w: real, h: real)
    requires w != 0.0 && h != 0.0
    ensures ((w / h) * 100.0) * h == 100.0 * w
    ensures w > 0.0 && h > 0.0 && (h / w) * 100.0 > 100.0 ==> 0.0 < (w / h) * 100.0 < 100.0
  {
    if w > 0.0 && h > 0.0 && (h / w) * 100.0 > 100.0 {
      assert 1.0 < h / w;
      MulStrict(1.0, h / w, w);
      assert w < h;
      MulStrict(w / h, 1.0, h);
    }
  }

  /** The "W x H" values of the preset select, in order. */
  const PresetOptions: seq<(real, real)> := [
    (6000.0, 4000.0), (336.0, 280.0), (300.0, 250.0), (300.0, 600.0), (250.0, 250.0),
    (970.0, 90.0), (728.0, 90.0), (120.0, 600.0), (970.0, 250.0), (1200.0, 160.0),
    (1200.0, 628.0), (820.0, 312.0), (940.0, 788.0), (1080.0, 1350.0), (1080.0, 1080.0),
    (1080.0, 1920.0), (1280.0, 720.0), (600.0, 900.0), (4000.0, 4000.0), (1080.0, 1920.0),
    (1200.0, 380.0), (1920.0, 1080.0), (1280.0, 720.0), (320.0, 100.0), (1500.0, 500.0),
    (4000.0, 4000.0), (1280.0, 720.0), (2560.0, 1440.0), (4000.0, 4000.0), (1280.0, 720.0)]

  /** Every entry of the select is a usable preset: both numbers are positive, so
      choosing it always stores an aspect and, with an image, sets a crop that fits. */
  lemma PresetOptionsArePositive()
    ensures forall i :: 0 <= i < |PresetOptions| ==> PresetOptions[i].0 > 0.0 && PresetOptions[i].1 > 0.0
  {
  }

  /** Which side `handleDimensionChange` is given. */
  datatype Dimension = Width | Height

  /** The crop `handleDimensionChange` hands to `setCrop`, as a specification:
      the given side becomes `toPixels(value) / naturalSize * 100`; with an aspect
      the other side follows it, otherwise it keeps its value; each offset is
      pulled back just enough to keep the crop on the image, but not below 0. */
  function Resized(crop: Option<Rect>, dimension: Dimension, value: Option<real>, unit: Unit,
                   aspect: Option<real>, natW: real, natH: real): Option<Rect>
    requires value.Some? ==> (if dimension == Width then natW else natH) != 0.0
  {
    if value.None? then None
    else
      var b := Base(crop);
      var s := SidesAfter(b, dimension, Percentage(value.value, unit, if dimension == Width then natW else natH), aspect);
      Some(Rect(FitOffset(b.x, s.width), FitOffset(b.y, s.height), s.width, s.height))
  }

  /** The two sides after the given one is set to `pct`: with an aspect the other
      follows, otherwise it keeps its value. */
  function SidesAfter(b: Rect, dimension: Dimension, pct: real, aspect: Option<real>): Size {
    if dimension == Width then
      Size(pct, if Truthy(aspect) then pct / aspect.value else b.height)
    else
      Size(if Truthy(aspect) then pct * aspect.value else b.width, pct)
  }

  /** `handleDimensionChange` ignores NaN; otherwise it sets the given side from the
      value, derives the other from the aspect when there is one (and keeps it
      when there is none), and refits both offsets. */
  lemma ResizedSides(crop: Option<Rect>, dimension: Dimension, value: Option<real>, unit: Unit,
                     aspect: Option<real>, natW: real, natH: real)
    requires value.Some? ==> (if dimension == Width then natW else natH) != 0.0
    ensures var r := Resized(crop, dimension, value, unit, aspect, natW, natH);
      && (r.None? <==> value.None?)
      && (r.Some? && dimension == Width ==>
            && r.value.width == Percentage(value.value, unit, natW)
            && r.value.height == (if Truthy(aspect) then r.value.width / aspect.value else Base(crop).height))
      && (r.Some? && dimension == Height ==>
            && r.value.height == Percentage(value.value, unit, natH)
            && r.value.width == (if Truthy(aspect) then r.value.height * aspect.value else Base(crop).width))
      && (r.Some? ==> r.value.x == FitOffset(Base(crop).x, r.value.width)
                      && r.value.y == FitOffset(Base(crop).y, r.value.height))
  {
  }

  /** `(toPixels(value, unit) / naturalSize) * 100`. */
  function Percentage(value: real, unit: Unit, naturalSize: real): real
    requires naturalSize != 0.0
  {
    (ToPixels(value, unit) / naturalSize) * 100.0
  }

  /** An offset moved back so that `offset + length` does not pass 100, but not
      below 0. */
  function FitOffset(offset: real, length: real): (r: real)
    ensures offset >= 0.0 ==> 0.0 <= r <= offset
    ensures offset + length <= 100.0 ==> r == offset
    ensures length <= 100.0 ==> r + length <= 100.0
    ensures r >= 0.0 || r == offset
  {
    if offset + length > 100.0 then Max(0.0, 100.0 - length) else offset
  }

  /** `handleDimensionChange(dimension, value)`: `newX` and `newY` start at the
      crop's offsets and are reassigned when the new size would run past the
      right or bottom edge. */
  method DimensionChange(crop: Option<Rect>, dimension: Dimension, value: Option<real>, unit: Unit,
                         aspect: Option<real>, natW: real, natH: real) returns (r: Option<Rect>)
    requires value.Some? ==> (if dimension == Width then natW else natH) != 0.0
    ensures r == Resized(crop, dimension, value, unit, aspect, natW, natH)
  {
    if value.None? {
      return None;
    }
    var b := Base(crop);
    var naturalSize := if dimension == Width then natW else natH;
    var percentage := Percentage(value.value, unit, naturalSize);
    var newWidth := if dimension == Width then percentage else b.width;
    var newHeight := if dimension == Height then percentage else b.height;
    if Truthy(aspect) {
      if dimension == Width {
        newHeight := percentage / aspect.value;
      } else {
        newWidth := percentage * aspect.value;
      }
    }
    var newX := b.x;
    var newY := b.y;
    if newX + newWidth > 100.0 {
      newX := Max(0.0, 100.0 - newWidth);
    }
    if newY + newHeight > 100.0 {
      newY := Max(0.0, 100.0 - newHeight);
    }
    assert Size(newWidth, newHeight) == SidesAfter(b, dimension, percentage, aspect);
    return Some(Rect(newX, newY, newWidth, newHeight));
  }

  /** A dimension change never moves a crop that starts on the image away from
      the top-left corner, and keeps it inside whenever its new size fits. */
  lemma ResizedStaysInside(crop: Option<Rect>, dimension: Dimension, value: real, unit: Unit,
                           aspect: Option<real>, natW: real, natH: real)
    requires (if dimension == Width then natW else natH) != 0.0
    requires InPercentBounds(Base(crop))
    ensures var r := Resized(crop, dimension, Some(value), unit, aspect, natW, natH).value;
      && 0.0 <= r.x <= Base(crop).x && 0.0 <= r.y <= Base(crop).y
      && (0.0 <= r.width <= 100.0 && 0.0 <= r.height <= 100.0 ==> InPercentBounds(r))
  {
  }

  /** The text of a number field, as `parseFloat` sees it. */
  datatype FloatText = Blank | Number(v: real) | NotANumber

  /** What typing into the Width or Height field does: nothing; clearing it (the
      text becomes "" and the crop is sized 0); or entering a number (the text shows
      the clamped value, and both crops get the new size). */
  datatype DimensionOutcome =
    | Unchanged
    | Cleared(crop: Rect)
    | Entered(shown: real, crop: Rect, completed: Rect)

  /** The largest number the field accepts: the natural size in the current unit. */
  function FieldMax(natural: real, unit: Unit): real {
    FromPixels(natural, unit)
  }

  /** The Width field `onChange`. The raw text goes to `handleDimensionChange`
      first; an empty field then sizes the crop to 0; a number is clamped to
      `[0, fromPixels(natW)]`, shown, passed to `handleDimensionChange` again and
      finally written as the width of both `crop` and `completedCrop` as
      `clamped / (max / 100)`. The four updates are queued in that order. */
  method WidthField(crop: Option<Rect>, completedCrop: Option<Rect>, text: FloatText, unit: Unit,
                    aspect: Option<real>, natW: real, natH: real) returns (r: DimensionOutcome)
    requires natW > 0.0
    ensures text.NotANumber? ==> r.Unchanged?
    ensures text.Blank? ==> r == Cleared(Resized(crop, Width, Some(0.0), unit, aspect, natW, natH).value)
    ensures text.Number? ==>
      var clamped := Max(0.0, Min(text.v, FieldMax(natW, unit)));
      var widthValue := clamped / (FieldMax(natW, unit) / 100.0);
      && r == Entered(clamped,
                      Resized(crop, Width, Some(clamped), unit, aspect, natW, natH).value.(width := widthValue),
                      Base(completedCrop).(width := widthValue))
  {
    var queued := Base(crop);
    var raw := DimensionChange(crop, Width, if text.Number? then Some(text.v) else None, unit, aspect, natW, natH);
    if raw.Some? {
      queued := raw.value;
    }
    if text.Blank? {
      var zero := DimensionChange(crop, Width, Some(0.0), unit, aspect, natW, natH);
      return Cleared(zero.value);
    }
    if text.NotANumber? {
      return Unchanged;
    }
    var maxWidth := FromPixels(natW, unit);
    ConversionsScale(natW, unit);
    var clamped := Max(0.0, Min(text.v, maxWidth));
    var sized := DimensionChange(crop, Width, Some(clamped), unit, aspect, natW, natH);
    queued := sized.value;
    var onePercent := maxWidth / 100.0;
    var widthValue := clamped / onePercent;
    queued := queued.(width := widthValue);
    return Entered(clamped, queued, Base(completedCrop).(width := widthValue));
  }

  /** The Height field `onChange`: as Width, without the first raw call. */
  method HeightField(crop: Option<Rect>, completedCrop: Option<Rect>, text: FloatText, unit: Unit,
                     aspect: Option<real>, natW: real, natH: real) returns (r: DimensionOutcome)
    requires natH > 0.0
    ensures text.NotANumber? ==> r.Unchanged?
    ensures text.Blank? ==> r == Cleared(Resized(crop, Height, Some(0.0), unit, aspect, natW, natH).value)
    ensures text.Number? ==>
      var clamped := Max(0.0, Min(text.v, FieldMax(natH, unit)));
      var heightValue := clamped / (FieldMax(natH, unit) / 100.0);
      && r == Entered(clamped,
                      Resized(crop, Height, Some(clamped), unit, aspect, natW, natH).value.(height := heightValue),
                      Base(completedCrop).(height := heightValue))
  {
    if text.Blank? {
      var zero := DimensionChange(crop, Height, Some(0.0), unit, aspect, natW, natH);
      return Cleared(zero.value);
    }
    if text.NotANumber? {
      return Unchanged;
    }
    var maxHeight := FromPixels(natH, unit);
    ConversionsScale(natH, unit);
    var clamped := Max(0.0, Min(text.v, maxHeight));
    var sized := DimensionChange(crop, Height, Some(clamped), unit, aspect, natW, natH);
    var onePercent := maxHeight / 100.0;
    var heightValue := clamped / onePercent;
    return Entered(clamped, sized.value.(height := heightValue), Base(completedCrop).(height := heightValue));
  }

  /** The width the Width field writes last is the very percentage
      `handleDimensionChange` computed for the clamped value, in every unit: the
      final override changes nothing in the crop. */
  lemma OverrideAgreesWithDimensionChange(clamped: real, natural: real, unit: Unit)
    requires natural > 0.0
    ensures clamped / (FieldMax(natural, unit) / 100.0) == Percentage(clamped, unit, natural)
  {
    ConversionsScale(natural, unit);
    ConversionsScale(clamped, unit);
    var k := PixelsPerUnit(unit);
    var m := FieldMax(natural, unit);
    assert m == natural / k;
    assert clamped / (m / 100.0) == clamped * k * 100.0 / natural;
  }

  /** So an entered width is exactly `handleDimensionChange`'s crop; the number
      shown lies in `[0, max]` and gives a width in `[0, 100]`. */
  lemma EnteredWidthIsDimensionChange(crop: Option<Rect>, completedCrop: Option<Rect>, v: real, unit: Unit,
                                      aspect: Option<real>, natW: real, natH: real)
    requires natW > 0.0
    ensures var clamped := Max(0.0, Min(v, FieldMax(natW, unit)));
      var e := Resized(crop, Width, Some(clamped), unit, aspect, natW, natH).value;
      && 0.0 <= clamped <= FieldMax(natW, unit)
      && e.(width := clamped / (FieldMax(natW, unit) / 100.0)) == e
      && 0.0 <= e.width <= 100.0
  {
    var clamped := Max(0.0, Min(v, FieldMax(natW, unit)));
    ConversionsScale(natW, unit);
    OverrideAgreesWithDimensionChange(clamped, natW, unit);
    ToPixelsMonotone(clamped, FieldMax(natW, unit), unit);
    ToPixelsMonotone(0.0, clamped, unit);
    UnitRoundTrip(natW, unit);
    PercentOfWhole(ToPixels(clamped, unit), natW);
  }

  lemma PercentOfWhole(p: real, size: real)
    requires 0.0 <= p <= size && size > 0.0
    ensures 0.0 <= p / size * 100.0 <= 100.0
  {
  }

  /** What moving the size slider does: the percentage it stores and, with an image
      mounted, the crop (also used as `completedCrop`). */
  datatype SliderChange = SliderChange(percent: int, crop: Option<Rect>)

  /** The size slider's reading: `Math.max(0, parseInt(value) || 0)`. */
  function SliderPercent(text: string): (n: int)
    ensures n >= 0
    ensures ParseInt(text).Some? && ParseInt(text).value >= 0 ==> n == ParseInt(text).value
    ensures ParseInt(text).None? || ParseInt(text).value < 0 ==> n == 0
  {
    var parsed := match ParseInt(text) case Some(n) => n case None => 0;
    if parsed < 0 then 0 else parsed
  }

  /** The crop the slider sets: square, `percent` percent on each side, at the
      top-left corner. */
  function SliderCrop(crop: Option<Rect>, percent: int): (r: Rect)
    ensures r == Rect(0.0, 0.0, percent as real, percent as real)
  {
    var scale := percent as real / 100.0;
    Base(crop).(x := 0.0, y := 0.0, width := 100.0 * scale, height := 100.0 * scale)
  }

  /** The size slider: the percent it reads and, with an image mounted, the crop. */
  function SizeSlider(crop: Option<Rect>, text: string, mounted: bool): (r: SliderChange)
    ensures r.percent == SliderPercent(text)
    ensures r.crop.Some? <==> mounted
    ensures r.crop.Some? ==> r.crop.value == SliderCrop(crop, r.percent)
  {
    var newSize := SliderPercent(text);
    if mounted then SliderChange(newSize, Some(SliderCrop(crop, newSize))) else SliderChange(newSize, None)
  }

  /** Every position of the slider (1 to 100) gives a crop of that many percent that
      lies on the image. */
  lemma SliderCropFits(crop: Option<Rect>, n: int)
    requires 1 <= n <= 100
    ensures var r := SizeSlider(crop, IntToString(n), true);
      r.percent == n && InPercentBounds(r.crop.value)
  {
    ParseIntOfIntToString(n);
  }
}
