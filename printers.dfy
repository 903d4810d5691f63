/**
 * The `operator<<` printers of src/types.cc, with the stream modelled as
 * the string written to it. The stroke and sketch printers count an index
 * down while they write, so the separator after the last point or element
 * differs from the others; `Separated` is that countdown written as a
 * function. Atoms read back through the atom parsers of the document
 * format.
 */
module Printers {
  import opened Results
  import opened Util
  import opened ParserBase
  import opened Types
  import Document
  import Arith
  import Numeral
  import SketchFormat
  import RawFormat
  import NumberText

  /* ~~ Countdown lists ~~~~~~~~~~~~~~~~~~~~~~~~~~~~~~~~~~~~~~~~~~~~~~~~~~~ */

  /** What a countdown printer has written after its first `k` items: each
      item followed by `sep`, except the last item of all, followed by
      `last`. */
  function Separated(items: seq<string>, k: nat, sep: string, last: string): string
    requires k <= |items|
    decreases k
  {
    if k == 0 then []
    else Separated(items, k - 1, sep, last) + (items[k - 1] + (if k < |items| then sep else last))
  }

  /** The items with `sep` between neighbours. */
  function Join(items: seq<string>, sep: string): string {
    if items == [] then []
    else if |items| == 1 then items[0]
    else items[0] + sep + Join(items[1..], sep)
  }

  lemma {:induction false} JoinSnoc(items: seq<string>, x: string, sep: string)
    requires items != []
    ensures Join(items + [x], sep) == Join(items, sep) + sep + x
    decreases |items|
  {
    var all := items + [x];
    assert all[1..] == items[1..] + [x];
    if |items| > 1 {
      JoinSnoc(items[1..], x, sep);
      AppendAssoc(items[0] + sep, Join(items[1..], sep), sep + x);
    }
  }

  lemma {:induction false} SeparatedPrefix(items: seq<string>, k: nat, sep: string, last: string)
    requires 1 <= k <= |items|
    ensures Separated(items, k, sep, last) == Join(items[..k], sep) + (if k < |items| then sep else last)
    decreases k
  {
    if k == 1 {
      assert items[..1] == [items[0]];
    } else {
      SeparatedPrefix(items, k - 1, sep, last);
      assert items[..k] == items[..k - 1] + [items[k - 1]];
      JoinSnoc(items[..k - 1], items[k - 1], sep);
      AppendAssoc(Join(items[..k - 1], sep) + sep, items[k - 1], if k < |items| then sep else last);
    }
  }

  /** One turn of a countdown printer: the next item and its separator. */
  lemma SeparatedStep(items: seq<string>, j: nat, sep: string, last: string, end: string)
    requires j < |items| && end == (if j + 1 < |items| then sep else last)
    ensures Separated(items, j + 1, sep, last) == Separated(items, j, sep, last) + items[j] + end
  {
    AppendAssoc(Separated(items, j, sep, last), items[j], end);
  }

  /** A countdown printer writes its items joined by `sep` and then
      `last`, and nothing at all for no items. */
  lemma SeparatedJoin(items: seq<string>, sep: string, last: string)
    ensures Separated(items, |items|, sep, last) == if items == [] then [] else Join(items, sep) + last
  {
    if items != [] {
      SeparatedPrefix(items, |items|, sep, last);
      assert items[..|items|] == items;
    }
  }

  /* ~~ Strokes ~~~~~~~~~~~~~~~~~~~~~~~~~~~~~~~~~~~~~~~~~~~~~~~~~~~~~~~~~~~ */

  /** `Base36::toString<3,signed>` of a coordinate held in an `int`. */
  function Digits3(x: int): (s: string)
    ensures |s| == 3
  {
    SketchFormat.Widths();
    Numeral.EncodeInt(Numeral.Base36, 3, true, Numeral.Int32Of(x))
  }

  /** The six digits of a point, `x` first; the pressure is not written. */
  function PointText(p: Point): string {
    Digits3(p.x) + Digits3(p.y)
  }

  function PointTexts(points: seq<Point>): (texts: seq<string>)
    ensures |texts| == |points|
    ensures forall k :: 0 <= k < |points| ==> texts[k] == PointText(points[k])
  {
    if points == [] then [] else [PointText(points[0])] + PointTexts(points[1..])
  }

  /** `operator<<(Stroke)`: the points, a tick between neighbours. The
      diameter is not written. */
  function StrokeText(s: Stroke): string {
    Separated(PointTexts(s.points), |s.points|, [SketchFormat.Tick], [])
  }

  /** `operator<<(Stroke)` as it runs: `i` counts down from the number of
      points, and the tick is written while `--i` is not zero. */
  method PrintStroke(s: Stroke) returns (out: string)
    ensures out == StrokeText(s)
  {
    ghost var texts := PointTexts(s.points);
    out := [];
    var i := |s.points|;
    for j := 0 to |s.points|
      invariant i == |s.points| - j
      invariant out == Separated(texts, j, [SketchFormat.Tick], [])
    {
      var p := s.points[j];
      out := out + (Digits3(p.x) + Digits3(p.y));
      i := i - 1;
      var tick := if i != 0 then "'" else "";
      SeparatedStep(texts, j, [SketchFormat.Tick], [], tick);
      out := out + tick;
    }
  }

  /** Both coordinates of every point fit three signed base-36 digits. */
  predicate Printable(points: seq<Point>) {
    forall k :: 0 <= k < |points| ==>
      SketchFormat.Coordinate(points[k].x) && SketchFormat.Coordinate(points[k].y)
  }

  /** The points without their pressures, as a data stroke holds them. */
  function Positions(points: seq<Point>): (ps: seq<Document.FlatPoint>)
    ensures |ps| == |points|
    ensures forall k :: 0 <= k < |points| ==> ps[k] == Document.FlatPoint(points[k].x, points[k].y)
  {
    if points == [] then [] else [Document.FlatPoint(points[0].x, points[0].y)] + Positions(points[1..])
  }

  function Records(points: seq<Point>): (rs: seq<seq<int>>)
    ensures |rs| == |points|
    ensures forall k :: 0 <= k < |points| ==> rs[k] == [points[k].x, points[k].y]
  {
    if points == [] then [] else [[points[0].x, points[0].y]] + Records(points[1..])
  }

  /** A coordinate is written as its three-digit field. */
  lemma CoordinateEncodes(x: int)
    requires SketchFormat.Coordinate(x)
    ensures Numeral.Base36.Valid() && Numeral.InRange(Numeral.Base36, 3, true, x)
    ensures Numeral.Encodable(Numeral.Base36, 3, true, x)
    ensures Digits3(x) == Numeral.Encode(Numeral.Base36, 3, true, x)
    ensures Numeral.AllDigits(Numeral.Base36, Digits3(x))
  {
    SketchFormat.Widths();
    var b := Numeral.Base36;
    Numeral.EncodeIntAgrees(b, 3, true, x);
    Numeral.FoldDigits(b, if x < 0 then x + 46656 else x, 3);
  }

  /** A printable point is written as its `(x, y)` record. */
  lemma PointEncodes(p: Point)
    requires SketchFormat.Coordinate(p.x) && SketchFormat.Coordinate(p.y)
    ensures Numeral.Base36.Valid()
    ensures Numeral.RecordInRange(Numeral.Base36, SketchFormat.DataFields, [p.x, p.y])
    ensures PointText(p) == Numeral.EncodeRecord(Numeral.Base36, SketchFormat.DataFields, [p.x, p.y])
    ensures Numeral.AllDigits(Numeral.Base36, PointText(p))
  {
    CoordinateEncodes(p.x);
    CoordinateEncodes(p.y);
    var b, f, v := Numeral.Base36, SketchFormat.DataFields, [p.x, p.y];
    assert f[1..][1..] == [] && v[1..][1..] == [];
    assert Numeral.EncodeRecord(b, f, v) == Numeral.Encode(b, 3, true, p.x) + (Numeral.Encode(b, 3, true, p.y) + []);
  }

  /** A base-36 digit is neither a tick nor an upper-case letter. */
  lemma DigitPlain(c: char)
    requires Numeral.IsDigit(Numeral.Base36, c)
    ensures c != SketchFormat.Tick && !('A' <= c <= 'Z')
  {
    var i := Numeral.IndexOf(Numeral.Base36.alphabet, c);
    Numeral.Base36Codes();
    assert c as int >= 48;
  }

  /** The stroke printer joins the points' digits with ticks, as
      `removeTicks` expects them. */
  lemma StrokeTextJoin(s: Stroke)
    ensures StrokeText(s) == SketchFormat.JoinTicks(PointTexts(s.points))
  {
    SeparatedJoin(PointTexts(s.points), [SketchFormat.Tick], []);
    JoinTicksJoin(PointTexts(s.points));
  }

  lemma {:induction false} JoinTicksJoin(groups: seq<string>)
    ensures SketchFormat.JoinTicks(groups) == Join(groups, [SketchFormat.Tick])
    decreases |groups|
  {
    if |groups| > 1 {
      JoinTicksJoin(groups[1..]);
    }
  }

  lemma {:induction false} ConcatRecords(points: seq<Point>)
    requires Printable(points)
    ensures Numeral.Base36.Valid()
    ensures forall k :: 0 <= k < |points| ==>
      Numeral.RecordInRange(Numeral.Base36, SketchFormat.DataFields, Records(points)[k])
    ensures SketchFormat.Concat(PointTexts(points)) ==
      Numeral.EncodeTuples(Numeral.Base36, SketchFormat.DataFields, Records(points))
    decreases |points|
  {
    SketchFormat.Widths();
    forall k | 0 <= k < |points|
      ensures Numeral.RecordInRange(Numeral.Base36, SketchFormat.DataFields, Records(points)[k])
    {
      PointEncodes(points[k]);
    }
    if points != [] {
      ConcatRecords(points[1..]);
      PointEncodes(points[0]);
    }
  }

  /** The points' digit groups are plain characters, as `removeTicks`
      needs them. */
  lemma PlainGroups(points: seq<Point>)
    requires Printable(points)
    ensures forall i :: 0 <= i < |points| ==> (|PointTexts(points)[i]| >= 1 &&
      forall k :: 0 <= k < |PointTexts(points)[i]| ==>
        PointTexts(points)[i][k] != SketchFormat.Tick && !('A' <= PointTexts(points)[i][k] <= 'Z'))
  {
    forall i, k | 0 <= i < |points| && 0 <= k < |PointText(points[i])|
      ensures PointText(points[i])[k] != SketchFormat.Tick && !('A' <= PointText(points[i])[k] <= 'Z')
    {
      PointEncodes(points[i]);
      DigitPlain(PointText(points[i])[k]);
    }
  }

  /** Removing the ticks of the joined digit groups leaves the groups
      concatenated. */
  lemma PointsUnticked(points: seq<Point>)
    requires Printable(points)
    ensures SketchFormat.RemoveTicks(SketchFormat.JoinTicks(PointTexts(points))) ==
      Ok(SketchFormat.Concat(PointTexts(points)))
  {
    PlainGroups(points);
    GroupsUnticked(PointTexts(points));
  }

  lemma GroupsUnticked(groups: seq<string>)
    requires forall i :: 0 <= i < |groups| ==> (|groups[i]| >= 1 &&
      forall k :: 0 <= k < |groups[i]| ==> groups[i][k] != SketchFormat.Tick && !('A' <= groups[i][k] <= 'Z'))
    ensures SketchFormat.RemoveTicks(SketchFormat.JoinTicks(groups)) == Ok(SketchFormat.Concat(groups))
  {
    SketchFormat.RemoveTicksJoin(groups);
  }

  /** A data atom whose unticked text encodes in-range records reads as
      the points of those records. */
  lemma DataAtomRead(t: Token, rs: seq<seq<int>>)
    requires Numeral.Base36.Valid()
    requires forall k :: 0 <= k < |rs| ==> Numeral.RecordInRange(Numeral.Base36, SketchFormat.DataFields, rs[k])
    requires SketchFormat.RemoveTicks(t.text) == Ok(Numeral.EncodeTuples(Numeral.Base36, SketchFormat.DataFields, rs))
    ensures SketchFormat.AtomStrokeDataParse([t]) == Ok(Document.FlatStroke(SketchFormat.DataPointsOf(rs)))
  {
    SketchFormat.FieldWidths();
    Numeral.ParseTuplesEncode(Numeral.Base36, SketchFormat.DataFields, rs);
  }

  /** Round trip of a data stroke: the atom parser reads back the
      positions of what the stroke printer writes, when every coordinate
      fits three signed base-36 digits. */
  lemma StrokeRoundTrip(s: Stroke, pos: SourcePos)
    requires Printable(s.points)
    ensures SketchFormat.AtomStrokeDataParse([Token(StrokeText(s), pos)]) ==
      Ok(Document.FlatStroke(Positions(s.points)))
  {
    StrokeTextJoin(s);
    PointsUnticked(s.points);
    ConcatRecords(s.points);
    DataAtomRead(Token(StrokeText(s), pos), Records(s.points));
    RecordPositions(s.points);
  }

  lemma RecordPositions(points: seq<Point>)
    requires Printable(points)
    ensures Numeral.Base36.Valid()
    ensures forall k :: 0 <= k < |points| ==>
      Numeral.RecordInRange(Numeral.Base36, SketchFormat.DataFields, Records(points)[k])
    ensures SketchFormat.DataPointsOf(Records(points)) == Positions(points)
  {
    SketchFormat.Widths();
    forall k | 0 <= k < |points|
      ensures Numeral.RecordInRange(Numeral.Base36, SketchFormat.DataFields, Records(points)[k])
    {
      PointEncodes(points[k]);
    }
    assert SketchFormat.DataPointsOf(Records(points)) == Positions(points);
  }

  /* ~~ Markers ~~~~~~~~~~~~~~~~~~~~~~~~~~~~~~~~~~~~~~~~~~~~~~~~~~~~~~~~~~~ */

  /** `operator<<(Marker)`: the text in parentheses. */
  function MarkerText(m: Marker): string {
    "(" + m.text + ")"
  }

  /** Round trip of a marker: the atom parser reads back what the marker
      printer writes, whatever the text. */
  lemma MarkerRoundTrip(m: Marker, pos: SourcePos)
    ensures SketchFormat.AtomMarkerParse([Token(MarkerText(m), pos)]) == Ok(m)
  {
    var t := MarkerText(m);
    assert t[1..|t| - 1] == m.text;
  }

  /* ~~ Modifiers ~~~~~~~~~~~~~~~~~~~~~~~~~~~~~~~~~~~~~~~~~~~~~~~~~~~~~~~~~ */

  /** The nine entries as the stream writes them; `fmt` stands for the
      stream's formatting of a `float`. */
  function EntryTexts(fmt: real -> string, a: Affine): (texts: seq<string>)
    ensures |texts| == 9
    ensures forall k :: 0 <= k < 9 ==> texts[k] == fmt(a.m[k])
  {
    seq(9, k requires 0 <= k < 9 => fmt(a.m[k]))
  }

  /** `operator<<(Mod::Affine)`: `Affine [ `, each entry and a space, `]`. */
  function AffineText(fmt: real -> string, a: Affine): string {
    "Affine [ " + Separated(EntryTexts(fmt, a), 9, " ", " ") + "]"
  }

  /** The tokens of the printed entries read back as the matrix, when the
      strict float reader reads each printed entry back. */
  lemma AffineRoundTrip(fmt: real -> string, a: Affine, ts: seq<Token>)
    requires |ts| == 9 && forall k :: 0 <= k < 9 ==> ts[k].text == EntryTexts(fmt, a)[k]
    requires forall k :: 0 <= k < 9 ==> FloatParseStrict(fmt(a.m[k])) == Ok(a.m[k])
    ensures SketchFormat.AffineRead(ts) == Ok(AffineMod(a))
  {
    SketchFormat.AffineReadEntries(ts);
    var m := SketchFormat.AffineRead(ts).value.affine.m;
    assert forall k :: 0 <= k < 9 ==> m[k] == a.m[k];
    assert m == a.m;
  }

  /** `operator<<(Mod::Array)`: `Array [ `, the count in decimal, the
      transformation, `]`. */
  function ArrayText(fmt: real -> string, n: nat, a: Affine): string {
    "Array [ " + Decimal10(n) + " " + AffineText(fmt, a) + " " + "]"
  }

  /** The tokens of a printed array modifier read back as the modifier:
      the count, `Affine [`, the entries, `]`, for a count of at most
      nineteen digits. */
  lemma ArrayRoundTrip(fmt: real -> string, n: nat, a: Affine, ts: seq<Token>)
    requires n < 10_000_000_000_000_000_000
    requires |ts| == 13 && ts[0].text == Decimal10(n)
    requires ts[1].text == "Affine" && ts[2].text == "[" && ts[12].text == "]"
    requires forall k :: 0 <= k < 9 ==> ts[3 + k].text == EntryTexts(fmt, a)[k]
    requires forall k :: 0 <= k < 9 ==> FloatParseStrict(fmt(a.m[k])) == Ok(a.m[k])
    ensures SketchFormat.ModArrayParse(ts) == Ok(ArrayMod(n, a))
  {
    Numeral.MaxDigitsSizeT();
    assert Arith.Pow(10, 9) == 1000000000;
    assert Arith.Pow(10, 10) == 10000000000;
    Arith.PowAdd(10, 9, 10);
    ParserBase.IntegerParseEncodeN(Numeral.SizeT, n);
    AffineRoundTrip(fmt, a, ts[3..12]);
  }

  /** The affine round trip without its read-back assumption, for whole
      entries of at most six digits, which the stream prints as their
      decimal text. */
  lemma AffineRoundTripWhole(fmt: real -> string, a: Affine, ts: seq<Token>, mags: seq<nat>)
    requires |ts| == 9 && forall k :: 0 <= k < 9 ==> ts[k].text == EntryTexts(fmt, a)[k]
    requires |mags| == 9
    requires forall k :: 0 <= k < 9 ==>
      mags[k] < 1_000_000 &&
      ((a.m[k] == mags[k] as real && fmt(a.m[k]) == Decimal10(mags[k])) ||
       (a.m[k] == -(mags[k] as real) && fmt(a.m[k]) == "-" + Decimal10(mags[k])))
    ensures SketchFormat.AffineRead(ts) == Ok(AffineMod(a))
  {
    forall k | 0 <= k < 9
      ensures FloatParseStrict(fmt(a.m[k])) == Ok(a.m[k])
    {
      NumberText.WholeReadsBack(a.m[k], fmt(a.m[k]), mags[k]);
    }
    AffineRoundTrip(fmt, a, ts);
  }

  /** `operator<<(Mod::Uppercase)`. */
  const UppercaseText: string := "Uppercase [ ]"

  function StrokeModText(fmt: real -> string, m: StrokeMod): string {
    match m
    case AffineMod(a) => AffineText(fmt, a)
    case ArrayMod(n, t) => ArrayText(fmt, n, t)
  }

  /** Each modifier on a line of its own, indented by a tab. */
  function ModifiersText(fmt: real -> string, mods: Modifiers): string {
    match mods
    case StrokeMods(ms) => StrokeModsText(fmt, ms)
    case MarkerMods(ms) => MarkerModsText(ms)
  }

  function StrokeModsText(fmt: real -> string, ms: seq<StrokeMod>): string {
    if ms == [] then [] else "\n\t" + StrokeModText(fmt, ms[0]) + StrokeModsText(fmt, ms[1..])
  }

  function MarkerModsText(ms: seq<MarkerMod>): string {
    if ms == [] then [] else "\n\t" + UppercaseText + MarkerModsText(ms[1..])
  }

  /* ~~ Elements and sketches ~~~~~~~~~~~~~~~~~~~~~~~~~~~~~~~~~~~~~~~~~~~~~ */

  /** The element printer reads `markers[0]`, so a marker element needs a
      marker. */
  predicate ElementPrintable(e: Element) {
    e.atoms.Markers? ==> |e.atoms.markers| >= 1
  }

  /** The atoms: `[ `, each stroke and a space, `]`; or the first marker. */
  function AtomsText(atoms: Atoms): string
    requires atoms.Markers? ==> |atoms.markers| >= 1
  {
    match atoms
    case Strokes(ss) => "[ " + StrokesText(ss) + "]"
    case Markers(ms) => MarkerText(ms[0])
  }

  /** Each stroke followed by a space. */
  function StrokesText(ss: seq<Stroke>): string {
    if ss == [] then [] else StrokeText(ss[0]) + " " + StrokesText(ss[1..])
  }

  /** `operator<<(Element)`: the type keyword, the atoms, the modifiers. */
  function ElementText(fmt: real -> string, e: Element): string
    requires ElementPrintable(e)
  {
    (if e.kind == Data then "Data " else "Marker ") + AtomsText(e.atoms) + ModifiersText(fmt, e.modifiers)
  }

  function ElementTexts(fmt: real -> string, elements: seq<Element>): (texts: seq<string>)
    requires forall k :: 0 <= k < |elements| ==> ElementPrintable(elements[k])
    ensures |texts| == |elements|
    ensures forall k :: 0 <= k < |elements| ==> texts[k] == ElementText(fmt, elements[k])
  {
    seq(|elements|, k requires 0 <= k < |elements| => ElementText(fmt, elements[k]))
  }

  /** `operator<<(Sketch)`: the elements, each followed by `,` and a
      newline, the last by `;`. */
  function SketchText(fmt: real -> string, sketch: Sketch): string
    requires forall k :: 0 <= k < |sketch.elements| ==> ElementPrintable(sketch.elements[k])
  {
    Separated(ElementTexts(fmt, sketch.elements), |sketch.elements|, ",\n", ";")
  }

  /** `operator<<(Sketch)` as it runs: `i` counts down from the number of
      elements and picks `,\n` while `--i` is not zero, `;` after the last. */
  method PrintSketch(fmt: real -> string, sketch: Sketch) returns (out: string)
    requires forall k :: 0 <= k < |sketch.elements| ==> ElementPrintable(sketch.elements[k])
    ensures out == SketchText(fmt, sketch)
  {
    ghost var texts := ElementTexts(fmt, sketch.elements);
    out := [];
    var i := |sketch.elements|;
    for j := 0 to |sketch.elements|
      invariant i == |sketch.elements| - j
      invariant out == Separated(texts, j, ",\n", ";")
    {
      i := i - 1;
      var end := if i != 0 then ",\n" else ";";
      out := out + (ElementText(fmt, sketch.elements[j]) + end);
    }
  }

  /** A sketch prints as its elements joined by `,` and a newline and
      ended by `;`; an empty sketch prints nothing, not even the `;`. */
  lemma SketchTextJoin(fmt: real -> string, sketch: Sketch)
    requires forall k :: 0 <= k < |sketch.elements| ==> ElementPrintable(sketch.elements[k])
    ensures SketchText(fmt, sketch) ==
      if sketch.elements == [] then [] else Join(ElementTexts(fmt, sketch.elements), ",\n") + ";"
  {
    SeparatedJoin(ElementTexts(fmt, sketch.elements), ",\n", ";");
  }

  /* ~~ Raw sketches ~~~~~~~~~~~~~~~~~~~~~~~~~~~~~~~~~~~~~~~~~~~~~~~~~~~~~~ */

  function RawStrokes(sketch: RawSketch): (strokes: seq<Document.FlatStroke>)
    ensures |strokes| == |sketch.strokes|
    ensures forall k :: 0 <= k < |strokes| ==> |strokes[k].points| == |sketch.strokes[k].points|
    ensures forall k, j :: 0 <= k < |strokes| && 0 <= j < |strokes[k].points| ==>
      strokes[k].points[j] == Document.FlatPoint(sketch.strokes[k].points[j].x, sketch.strokes[k].points[j].y)
  {
    seq(|sketch.strokes|, k requires 0 <= k < |sketch.strokes| =>
      Document.FlatStroke(seq(|sketch.strokes[k].points|, j requires 0 <= j < |sketch.strokes[k].points| =>
        Document.FlatPoint(sketch.strokes[k].points[j].x, sketch.strokes[k].points[j].y))))
  }

  /** `operator<<(RawSketch)` writes what `RawFormat::print` writes: a
      space per stroke, then two unsigned base-36 digits per coordinate. */
  function RawSketchText(sketch: RawSketch): string {
    RawFormat.Printed(RawStrokes(sketch))
  }

  /** Round trip of the raw printer through the raw reader, when every
      stroke has a point and every coordinate is in `[0, 1296)`. */
  lemma RawSketchRoundTrip(sketch: RawSketch)
    requires forall k :: 0 <= k < |sketch.strokes| ==> |sketch.strokes[k].points| >= 1
    requires forall k, j :: 0 <= k < |sketch.strokes| && 0 <= j < |sketch.strokes[k].points| ==>
      0 <= sketch.strokes[k].points[j].x < 1296 && 0 <= sketch.strokes[k].points[j].y < 1296
    ensures RawFormat.RawRead(RawFormat.Unplaced(RawFormat.Words(RawSketchText(sketch)))) ==
      Ok(Document.FlatSketch(RawStrokes(sketch)))
  {
    RawFormat.PrintParse(Document.FlatSketch(RawStrokes(sketch)));
  }
}
