/** The length units of the Resizer page (`unit` state, Resizer.jsx) and its two
    conversions to and from pixels. */
module Units {

  /** The options of the unit select: pixels, percent, inches, centimetres. */
  datatype Unit = Px | Percent | Inch | Cm

  /** Dots per inch. */
  const DPI: real := 96.0

  /** Centimetres per inch. */
  const CM_PER_INCH: real := 2.54

  /** `toPixels(value, unit)`: inches and centimetres are scaled, every other unit is
      taken to be pixels already. */
  function ToPixels(value: real, unit: Unit): real {
    if unit == Inch then value * DPI
    else if unit == Cm then (value * DPI) / CM_PER_INCH
    else value
  }

  /** `fromPixels(value, unit)`. */
  function FromPixels(value: real, unit: Unit): real {
    if unit == Inch then value / DPI
    else if unit == Cm then (value * CM_PER_INCH) / DPI
    else value
  }

  /** How many pixels one unit is worth. */
  function PixelsPerUnit(unit: Unit): (k: real)
    ensures k > 0.0
    ensures unit == Inch ==> k == 96.0
    ensures unit == Cm ==> k * 2.54 == 96.0
    ensures unit == Px || unit == Percent ==> k == 1.0
  {
    if unit == Inch then DPI else if unit == Cm then DPI / CM_PER_INCH else 1.0
  }

  /** Both conversions are linear, with factors that are each other's inverse. */
  lemma ConversionsScale(value: real, unit: Unit)
    ensures ToPixels(value, unit) == value * PixelsPerUnit(unit)
    ensures FromPixels(value, unit) * PixelsPerUnit(unit) == value
  {
  }

  /** Converting to pixels and back, or from pixels and back, gives the value again,
      in every unit. */
  lemma UnitRoundTrip(value: real, unit: Unit)
    ensures FromPixels(ToPixels(value, unit), unit) == value
    ensures ToPixels(FromPixels(value, unit), unit) == value
  {
  }

  /** Both conversions preserve order, so a clamp in one unit is a clamp in pixels. */
  lemma ToPixelsMonotone(a: real, b: real, unit: Unit)
    requires a <= b
    ensures ToPixels(a, unit) <= ToPixels(b, unit)
    ensures FromPixels(a, unit) <= FromPixels(b, unit)
  {
  }
}
