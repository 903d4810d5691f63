/**
 * The data types of src/types.hh: the raw format's points and strokes,
 * the richer `Point`/`Stroke`/`Marker` atoms, the modifiers, elements and
 * sketches. Matrix entries and pressures (`float` in the source) are
 * exact reals here.
 */
module Types {

  datatype RawPoint = RawPoint(x: int, y: int)
  datatype RawStroke = RawStroke(points: seq<RawPoint>)
  datatype RawSketch = RawSketch(strokes: seq<RawStroke>)

  datatype Point = Point(x: int, y: int, pressure: real)
  datatype Stroke = Stroke(diameter: nat, points: seq<Point>)
  datatype Marker = Marker(text: string)

  /** `Atoms`: the variant of a stroke list and a marker list. */
  datatype Atoms = Strokes(strokes: seq<Stroke>) | Markers(markers: seq<Marker>)

  /** The nine entries of `Mod::Affine`, row-major. */
  type Matrix = m: seq<real> | |m| == 9
    witness [1.0, 0.0, 0.0, 0.0, 1.0, 0.0, 0.0, 0.0, 1.0]

  datatype Affine = Affine(m: Matrix)

  /** `Mod::Of_Stroke`: an `Affine` or an `Array` of `n` copies. */
  datatype StrokeMod = AffineMod(affine: Affine) | ArrayMod(n: nat, transformation: Affine)

  /** `Mod::Of_Marker`: only `Uppercase`. */
  datatype MarkerMod = Uppercase

  datatype Modifiers = StrokeMods(strokeMods: seq<StrokeMod>) | MarkerMods(markerMods: seq<MarkerMod>)

  datatype ElementType = Data | MarkerType

  /** `Element`; the two-argument constructor leaves the modifiers at the
      variant's default, an empty stroke-modifier list. */
  datatype Element = Element(kind: ElementType, atoms: Atoms, modifiers: Modifiers)

  datatype Sketch = Sketch(elements: seq<Element>)
}
