/**
 * The document types the sketch parser of src/parsers.cc builds. They are
 * not declared in any header of the repository; their shape is read off
 * their use sites: `Atom::FlatStroke` with integer points, `Atom::Stroke`
 * with a diameter and points carrying a pressure, `FlatSketch`, and the
 * element alternatives `Brush`, `Pencil`, `Data` and `Marker`, each built
 * from its atoms and its modifier list.
 */
module Document {
  import opened Types

  /** `Atom::FlatStroke::Point`: integer coordinates only. */
  datatype FlatPoint = FlatPoint(x: int, y: int)

  /** `Atom::FlatStroke`. */
  datatype FlatStroke = FlatStroke(points: seq<FlatPoint>)

  /** `FlatSketch`: what the raw format reads and prints. */
  datatype FlatSketch = FlatSketch(strokes: seq<FlatStroke>)

  /** `Atom::Stroke::Point`: coordinates and a pressure in `[0, 1]`. */
  datatype BrushPoint = BrushPoint(x: int, y: int, pressure: real)

  /** `Atom::Stroke`: a diameter and its points. */
  datatype BrushStroke = BrushStroke(diameter: nat, points: seq<BrushPoint>)

  /** One element of a parsed sketch: its atoms and its modifiers. */
  datatype Element =
    | Brush(strokes: seq<BrushStroke>, mods: seq<StrokeMod>)
    | Pencil(flat: seq<FlatStroke>, mods: seq<StrokeMod>)
    | Data(flat: seq<FlatStroke>, mods: seq<StrokeMod>)
    | MarkerElement(marker: Marker, markerMods: seq<MarkerMod>)

  /** A parsed sketch: its elements in document order. */
  datatype Sketch = Sketch(elements: seq<Element>)
}
