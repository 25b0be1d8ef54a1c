/** The crop fields of the second ImageCompressor page
    (src/pages/ImageCompressor/ImageCompressor.jsx). Width and Height keep the
    typed text in their own state (`widthInput`, `heightInput`) and have no
    "empty means 0" rule; when the field loses focus with unreadable text, it is
    refilled with the crop's current size. The position fields read
    `parseInt(value) || 0`, so every keystroke moves the crop. */
module NestedCompressorPage {
  import opened Wrappers
  import opened CropUtils
  import opened JsNumbers
  import opened CropInputs
  import opened CompressorPage

  /** What a keystroke in Width or Height does: the text the field now holds and
      the crop edit, if any. */
  datatype FieldChange = FieldChange(text: string, edit: Option<CropEdit>)

  /** Width `onChange`: the text is kept as typed; the crop changes when
      `parseInt` reads a number and an image is mounted. */
  function WidthTyped(crop: Option<Rect>, text: string, mounted: bool, natW: real, natH: real): (r: FieldChange)
    requires mounted ==> natW > 0.0
    ensures r.text == text
    ensures r.edit.Some? <==> mounted && ParseInt(text).Some?
    ensures r.edit.Some? ==> r.edit.value == SetWidthPx(crop, ParseInt(text).value as real, natW, natH)
  {
    var n := ParseInt(text);
    FieldChange(text, if n.Some? && mounted then Some(SetWidthPx(crop, n.value as real, natW, natH)) else None)
  }

  /** Height `onChange`, as Width. */
  function HeightTyped(crop: Option<Rect>, text: string, mounted: bool, natW: real, natH: real): (r: FieldChange)
    requires mounted ==> natH > 0.0
    ensures r.text == text
    ensures r.edit.Some? <==> mounted && ParseInt(text).Some?
    ensures r.edit.Some? ==> r.edit.value == SetHeightPx(crop, ParseInt(text).value as real, natW, natH)
  {
    var n := ParseInt(text);
    FieldChange(text, if n.Some? && mounted then Some(SetHeightPx(crop, n.value as real, natW, natH)) else None)
  }

  /** `parseInt(value, 10) || 0`: NaN reads as 0. */
  function NumberOrZero(text: string): (n: int)
    ensures ParseInt(text).Some? ==> n == ParseInt(text).value
    ensures ParseInt(text).None? ==> n == 0
  {
    match ParseInt(text)
    case Some(v) => v
    case None => 0
  }

  /** Position (X) `onChange`: always applied while an image is mounted. */
  function XTyped(crop: Option<Rect>, text: string, mounted: bool, natW: real, natH: real): (r: Option<CropEdit>)
    requires mounted ==> natW > 0.0
    ensures r.Some? <==> mounted
    ensures r.Some? ==> r.value == SetXPx(crop, NumberOrZero(text) as real, natW, natH)
  {
    if mounted then Some(SetXPx(crop, NumberOrZero(text) as real, natW, natH)) else None
  }

  /** Position (Y) `onChange`: always applied while an image is mounted. */
  function YTyped(crop: Option<Rect>, text: string, mounted: bool, natW: real, natH: real): (r: Option<CropEdit>)
    requires mounted ==> natH > 0.0
    ensures r.Some? <==> mounted
    ensures r.Some? ==> r.value == SetYPx(crop, NumberOrZero(text) as real, natW, natH)
  {
    if mounted then Some(SetYPx(crop, NumberOrZero(text) as real, natW, natH)) else None
  }

  /** The size a field is refilled with: `Math.round(percent / 100 * natural) || 1`,
      where an absent crop gives NaN and so 1. */
  function RefillSize(percent: Option<real>, natural: real): (n: int)
    ensures n != 0
    ensures percent.Some? && MathRound(percent.value / 100.0 * natural) != 0 ==>
      n == MathRound(percent.value / 100.0 * natural)
  {
    if percent.None? then 1
    else
      var m := MathRound(percent.value / 100.0 * natural);
      if m == 0 then 1 else m
  }

  /** Width or Height `onBlur`: text `parseInt` can read is left alone; anything
      else (the empty text included) is replaced by the crop's current size. */
  function BlurText(text: string, percent: Option<real>, natural: real): (t: string)
    ensures ParseInt(text).Some? ==> t == text
    ensures ParseInt(text).None? ==> ParseInt(t) == Some(RefillSize(percent, natural))
  {
    if text == [] || ParseInt(text).None? then
      ParseIntOfIntToString(RefillSize(percent, natural));
      IntToString(RefillSize(percent, natural))
    else
      text
  }

  /** After a blur the field always holds a nonzero number `parseInt` can read. */
  lemma BlurLeavesReadableText(text: string, percent: Option<real>, natural: real)
    ensures var t := BlurText(text, percent, natural);
      ParseInt(t).Some? && (ParseInt(text).None? ==> ParseInt(t).value != 0)
  {
  }

  /** Blurring twice is blurring once. */
  lemma BlurIdempotent(text: string, percent: Option<real>, natural: real)
    ensures BlurText(BlurText(text, percent, natural), percent, natural) == BlurText(text, percent, natural)
  {
  }

  /** Where both pages read a number the same way, they make the same edit. */
  lemma WidthAgreesWithRoutedPage(crop: Option<Rect>, n: int, natW: real, natH: real)
    requires natW > 0.0
    ensures WidthTyped(crop, IntToString(n), true, natW, natH).edit == WidthInput(crop, IntToString(n), true, natW, natH)
  {
    ParseIntOfIntToString(n);
    TypedNumberOfShown(n);
  }

  /** They differ on an empty Width field: the routed page reads it as 0 and
      makes the crop one pixel wide, this page leaves the crop alone. */
  lemma EmptyWidthDiffers(crop: Option<Rect>, natW: real, natH: real)
    requires natW > 0.0
    ensures WidthTyped(crop, "", true, natW, natH).edit.None?
    ensures WidthInput(crop, "", true, natW, natH).Some?
  {
  }

  /** A number field may hold ".5", which `parseInt` cannot read: the routed page
      then ignores Position (X), this page moves the crop to the left edge. */
  lemma FractionMovesOnlyHere(crop: Option<Rect>, natW: real, natH: real)
    requires natW > 0.0 && Base(crop).width <= 100.0
    ensures XInput(crop, ".5", true, natW, natH).None?
    ensures XTyped(crop, ".5", true, natW, natH).Some?
    ensures XTyped(crop, ".5", true, natW, natH).value.crop.x == 0.0
  {
    assert TrimStart(".5") == ".5";
    assert LeadingDigits(".5") == [];
    ZeroOffsetIsLeftEdge(crop, natW, natH);
  }

  /** Typing 0 into Position (X) puts the crop at the left edge whenever it is no
      wider than the image. */
  lemma ZeroOffsetIsLeftEdge(crop: Option<Rect>, natW: real, natH: real)
    requires natW > 0.0 && Base(crop).width <= 100.0
    ensures SetXPx(crop, 0.0, natW, natH).crop.x == 0.0
  {
    var b := Base(crop);
    MulMonotone(b.width / 100.0, 1.0, natW);
    var e := SetXPx(crop, 0.0, natW, natH);
    assert e.crop.x / 100.0 * natW == 0.0;
  }
}
