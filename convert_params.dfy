/** The settings the convert button of covert.js hands to `imageToSTL`:
    the extrusion height `parseFloat(..) || 5` and the scale factor
    `(parseFloat(..) || 100) / 100`. Reading the input fields and
    `parseFloat` itself are not modelled; the parsed value is given. */
module ConvertParams {
  import opened StlText
  import opened Heightmap

  /** What `parseFloat` returns: not-a-number, or a finite number. */
  datatype Parsed = NaN | Num(value: real)

  const DefaultHeight := 5.0
  const DefaultPercent := 100.0

  /** A number is truthy in JavaScript unless it is NaN or zero. */
  predicate Truthy(p: Parsed)
  {
    p.Num? && p.value != 0.0
  }

  /** `p || d`: the parsed number if it is truthy, else the default. */
  function OrDefault(p: Parsed, d: real): (r: real)
    ensures d != 0.0 ==> r != 0.0
    ensures r == d || (p.Num? && r == p.value)
  {
    if Truthy(p) then p.value else d
  }

  /** `parseFloat(extrudeHeightInput.value) || 5`. */
  function ExtrudeHeight(p: Parsed): (h: real)
    ensures h != 0.0
  {
    OrDefault(p, DefaultHeight)
  }

  /** `(parseFloat(scalePercentInput.value) || 100) / 100`. */
  function ScaleFactor(p: Parsed): (s: real)
    ensures s != 0.0
  {
    OrDefault(p, DefaultPercent) / 100.0
  }

  /** The height falls back to 5 exactly when the parsed value is NaN or
      zero (or is 5 itself); every other value, a negative one included,
      is used as it is. */
  lemma HeightDefaulting(p: Parsed)
    ensures ExtrudeHeight(p) == DefaultHeight <==> (p == NaN || p == Num(0.0) || p == Num(5.0))
    ensures p.Num? && p.value != 0.0 ==> ExtrudeHeight(p) == p.value
    ensures p.Num? && p.value < 0.0 ==> ExtrudeHeight(p) < 0.0
  {
    if p.Num? && p.value != 0.0 {
      assert ExtrudeHeight(p) == p.value;
    }
  }

  /** The scale factor is the parsed percentage over 100, and 1 exactly
      when the percentage is NaN, zero or 100. */
  lemma ScaleDefaulting(p: Parsed)
    ensures ScaleFactor(p) == 1.0 <==> (p == NaN || p == Num(0.0) || p == Num(100.0))
    ensures p.Num? && p.value != 0.0 ==> ScaleFactor(p) * 100.0 == p.value
  {
    if p.Num? && p.value != 0.0 {
      assert OrDefault(p, DefaultPercent) == p.value;
    }
  }

  /** The convert handler once the image is decoded: the two settings are
      derived from the parsed inputs and passed to `imageToSTL` as the
      maximum height and the scale. */
  method Convert(img: ImageData, heightInput: Parsed, percentInput: Parsed,
                 fmt: real -> string, sqrt: real -> real) returns (stl: string)
    requires img.Valid()
    ensures stl == Document(Mesh(img, ExtrudeHeight(heightInput), ScaleFactor(percentInput)), fmt, sqrt)
  {
    var h := ExtrudeHeight(heightInput);
    var s := ScaleFactor(percentInput);
    stl := ImageToStl(img, h, s, fmt, sqrt);
  }
}
