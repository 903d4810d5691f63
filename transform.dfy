/**
 * The conversions and modifiers of src/types.cc: `fromRaw`, the affine
 * maps (identity, product, application to points and strokes), the
 * `Array` replicator and the `Uppercase` marker modifier.
 */
module Transform {
  import opened Types
  import opened Arith

  /* ~~ Conversions from the raw format ~~~~~~~~~~~~~~~~~~~~~~~~~~~~~~~~~~ */

  /** `Point::fromRaw`: the same coordinates at full pressure. */
  function PointOfRaw(p: RawPoint): (q: Point)
    ensures q.x == p.x && q.y == p.y && q.pressure == 1.0
  {
    Point(p.x, p.y, 1.0)
  }

  /** `Stroke::fromRaw`: diameter 3 and the raw points converted in order. */
  method StrokeFromRaw(s: RawStroke) returns (r: Stroke)
    ensures r.diameter == 3 && |r.points| == |s.points|
    ensures forall i :: 0 <= i < |s.points| ==> r.points[i] == PointOfRaw(s.points[i])
  {
    var points: seq<Point> := [];
    for i := 0 to |s.points|
      invariant |points| == i
      invariant forall k :: 0 <= k < i ==> points[k] == PointOfRaw(s.points[k])
    {
      points := points + [PointOfRaw(s.points[i])];
    }
    r := Stroke(3, points);
  }

  /** What `Stroke::fromRaw` computes. */
  function StrokeOfRaw(s: RawStroke): Stroke {
    Stroke(3, seq(|s.points|, i requires 0 <= i < |s.points| => PointOfRaw(s.points[i])))
  }

  /** `Sketch::fromRaw`: a single `Data` element holding one converted
      stroke per raw stroke, in order, and no modifiers. */
  method SketchFromRaw(s: RawSketch) returns (r: Sketch)
    ensures |r.elements| == 1
    ensures r.elements[0].kind == Data && r.elements[0].modifiers == StrokeMods([])
    ensures r.elements[0].atoms.Strokes?
    ensures var strokes := r.elements[0].atoms.strokes;
      |strokes| == |s.strokes| &&
      forall i :: 0 <= i < |s.strokes| ==> strokes[i] == StrokeOfRaw(s.strokes[i])
  {
    var strokes: seq<Stroke> := [];
    for i := 0 to |s.strokes|
      invariant |strokes| == i
      invariant forall k :: 0 <= k < i ==> strokes[k] == StrokeOfRaw(s.strokes[k])
    {
      var t := StrokeFromRaw(s.strokes[i]);
      assert t == StrokeOfRaw(s.strokes[i]);
      strokes := strokes + [t];
    }
    r := Sketch([Element(Data, Strokes(strokes), StrokeMods([]))]);
  }

  /* ~~ Affine maps ~~~~~~~~~~~~~~~~~~~~~~~~~~~~~~~~~~~~~~~~~~~~~~~~~~~~~~ */

  /** `Affine(x)`: `x` times the identity. */
  function Scale(x: real): Affine {
    Affine([x, 0.0, 0.0, 0.0, x, 0.0, 0.0, 0.0, x])
  }

  /** `Affine()`: the identity. */
  const Identity: Affine := Scale(1.0)

  /** The dot product of two rows of three. */
  function Dot(x0: real, x1: real, x2: real, y0: real, y1: real, y2: real): real {
    x0 * y0 + x1 * y1 + x2 * y2
  }

  /** Entry `(r, c)` of the row-major product `a * b`. */
  function Entry(a: Affine, b: Affine, r: nat, c: nat): real
    requires r < 3 && c < 3
  {
    Dot(a.m[3 * r], a.m[3 * r + 1], a.m[3 * r + 2], b.m[c], b.m[3 + c], b.m[6 + c])
  }

  /** `Affine * Affine`: the 3x3 matrix product. */
  function Mul(a: Affine, b: Affine): Affine {
    Affine([Entry(a, b, 0, 0), Entry(a, b, 0, 1), Entry(a, b, 0, 2),
            Entry(a, b, 1, 0), Entry(a, b, 1, 1), Entry(a, b, 1, 2),
            Entry(a, b, 2, 0), Entry(a, b, 2, 1), Entry(a, b, 2, 2)])
  }

  /** A unit row picks one entry of the other row, on either side. */
  lemma DotUnit(y0: real, y1: real, y2: real)
    ensures Dot(1.0, 0.0, 0.0, y0, y1, y2) == y0 == Dot(y0, y1, y2, 1.0, 0.0, 0.0)
    ensures Dot(0.0, 1.0, 0.0, y0, y1, y2) == y1 == Dot(y0, y1, y2, 0.0, 1.0, 0.0)
    ensures Dot(0.0, 0.0, 1.0, y0, y1, y2) == y2 == Dot(y0, y1, y2, 0.0, 0.0, 1.0)
  {
  }

  /** The identity is neutral on both sides. */
  lemma MulIdentity(a: Affine)
    ensures Mul(Identity, a) == a && Mul(a, Identity) == a
  {
    assert Identity.m == [1.0, 0.0, 0.0, 0.0, 1.0, 0.0, 0.0, 0.0, 1.0];
    DotUnit(a.m[0], a.m[3], a.m[6]);
    DotUnit(a.m[1], a.m[4], a.m[7]);
    DotUnit(a.m[2], a.m[5], a.m[8]);
    DotUnit(a.m[0], a.m[1], a.m[2]);
    DotUnit(a.m[3], a.m[4], a.m[5]);
    DotUnit(a.m[6], a.m[7], a.m[8]);
    assert Mul(Identity, a).m == a.m;
    assert Mul(a, Identity).m == a.m;
  }

  /** A row `x` times `B` times a column `y`, in either grouping. */
  lemma RowColumn(x0: real, x1: real, x2: real,
                  b00: real, b01: real, b02: real,
                  b10: real, b11: real, b12: real,
                  b20: real, b21: real, b22: real,
                  y0: real, y1: real, y2: real)
    ensures Dot(Dot(x0, x1, x2, b00, b10, b20), Dot(x0, x1, x2, b01, b11, b21), Dot(x0, x1, x2, b02, b12, b22), y0, y1, y2)
         == Dot(x0, x1, x2, Dot(b00, b01, b02, y0, y1, y2), Dot(b10, b11, b12, y0, y1, y2), Dot(b20, b21, b22, y0, y1, y2))
  {
  }

  /** One entry of `(a * b) * c` and of `a * (b * c)`, expanded. */
  lemma EntryAssoc(a: Affine, b: Affine, c: Affine, r: nat, k: nat)
    requires r < 3 && k < 3
    ensures Entry(Mul(a, b), c, r, k) == Entry(a, Mul(b, c), r, k)
  {
    var ab := Mul(a, b);
    var bc := Mul(b, c);
    if r == 0 {
      assert ab.m[0] == Entry(a, b, 0, 0) && ab.m[1] == Entry(a, b, 0, 1) && ab.m[2] == Entry(a, b, 0, 2);
    } else if r == 1 {
      assert ab.m[3] == Entry(a, b, 1, 0) && ab.m[4] == Entry(a, b, 1, 1) && ab.m[5] == Entry(a, b, 1, 2);
    } else {
      assert ab.m[6] == Entry(a, b, 2, 0) && ab.m[7] == Entry(a, b, 2, 1) && ab.m[8] == Entry(a, b, 2, 2);
    }
    if k == 0 {
      assert bc.m[0] == Entry(b, c, 0, 0) && bc.m[3] == Entry(b, c, 1, 0) && bc.m[6] == Entry(b, c, 2, 0);
    } else if k == 1 {
      assert bc.m[1] == Entry(b, c, 0, 1) && bc.m[4] == Entry(b, c, 1, 1) && bc.m[7] == Entry(b, c, 2, 1);
    } else {
      assert bc.m[2] == Entry(b, c, 0, 2) && bc.m[5] == Entry(b, c, 1, 2) && bc.m[8] == Entry(b, c, 2, 2);
    }
    RowColumn(a.m[3 * r], a.m[3 * r + 1], a.m[3 * r + 2],
              b.m[0], b.m[1], b.m[2], b.m[3], b.m[4], b.m[5], b.m[6], b.m[7], b.m[8],
              c.m[k], c.m[3 + k], c.m[6 + k]);
  }

  /** Composition of affine maps is associative. */
  lemma MulAssoc(a: Affine, b: Affine, c: Affine)
    ensures Mul(Mul(a, b), c) == Mul(a, Mul(b, c))
  {
    forall r, k | 0 <= r < 3 && 0 <= k < 3
      ensures Entry(Mul(a, b), c, r, k) == Entry(a, Mul(b, c), r, k)
    {
      EntryAssoc(a, b, c, r, k);
    }
    assert Mul(Mul(a, b), c).m == Mul(a, Mul(b, c)).m;
  }

  /** `int(...)` of a real: truncation toward zero. */
  function Trunc(r: real): (t: int)
    ensures r >= 0.0 ==> 0 <= t && t as real <= r < t as real + 1.0
    ensures r < 0.0 ==> t <= 0 && t as real - 1.0 < r <= t as real
  {
    if r >= 0.0 then r.Floor else -((-r).Floor)
  }

  /** One row of a map applied to the point `(x, y)`: `m0 x + m1 y + m2`. */
  function Row(m0: real, m1: real, m2: real, x: int, y: int): real {
    m0 * x as real + m1 * y as real + m2
  }

  /** `Affine * Point`: the first two rows applied to `(x, y, 1)`, each
      truncated toward zero, at full pressure; entries 6 to 8 are unused. */
  function Apply(a: Affine, p: Point): (q: Point)
    ensures q.pressure == 1.0
  {
    Point(Trunc(Row(a.m[0], a.m[1], a.m[2], p.x, p.y)),
          Trunc(Row(a.m[3], a.m[4], a.m[5], p.x, p.y)),
          1.0)
  }

  /** The identity keeps the coordinates and resets the pressure. */
  lemma ApplyIdentity(p: Point)
    ensures Apply(Identity, p) == Point(p.x, p.y, 1.0)
  {
    assert Identity.m == [1.0, 0.0, 0.0, 0.0, 1.0, 0.0, 0.0, 0.0, 1.0];
    assert Row(1.0, 0.0, 0.0, p.x, p.y) == p.x as real;
    assert Row(0.0, 1.0, 0.0, p.x, p.y) == p.y as real;
  }

  /** A real that is a whole number. */
  predicate Whole(r: real) {
    r == r.Floor as real
  }

  lemma WholeTrunc(r: real, n: int)
    requires r == n as real
    ensures Trunc(r) == n
  {
  }

  /** A row with whole entries maps integers to a whole number. */
  lemma WholeRow(m0: real, m1: real, m2: real, x: int, y: int)
    requires Whole(m0) && Whole(m1) && Whole(m2)
    ensures Row(m0, m1, m2, x, y) == (m0.Floor * x + m1.Floor * y + m2.Floor) as real
  {
  }

  /** With whole entries in its first two rows, `a` maps a point exactly:
      no truncation takes place. */
  lemma ApplyExact(a: Affine, p: Point)
    requires forall i :: 0 <= i < 6 ==> Whole(a.m[i])
    ensures Apply(a, p).x as real == Row(a.m[0], a.m[1], a.m[2], p.x, p.y)
    ensures Apply(a, p).y as real == Row(a.m[3], a.m[4], a.m[5], p.x, p.y)
  {
    var nx := a.m[0].Floor * p.x + a.m[1].Floor * p.y + a.m[2].Floor;
    var ny := a.m[3].Floor * p.x + a.m[4].Floor * p.y + a.m[5].Floor;
    WholeRow(a.m[0], a.m[1], a.m[2], p.x, p.y);
    WholeRow(a.m[3], a.m[4], a.m[5], p.x, p.y);
    WholeTrunc(Row(a.m[0], a.m[1], a.m[2], p.x, p.y), nx);
    WholeTrunc(Row(a.m[3], a.m[4], a.m[5], p.x, p.y), ny);
  }

  /** The row `(a0, a1, a2)` applied to the image `(u, v)` of a point
      `(x, y)` under `B`, when the bottom row of `B` is `(0, 0, 1)`. */
  lemma RowImage(a0: real, a1: real, a2: real,
                 b0: real, b1: real, b2: real, b3: real, b4: real, b5: real,
                 x: int, y: int, u: int, v: int)
    requires u as real == Row(b0, b1, b2, x, y) && v as real == Row(b3, b4, b5, x, y)
    ensures Row(a0, a1, a2, u, v)
         == Row(Dot(a0, a1, a2, b0, b3, 0.0), Dot(a0, a1, a2, b1, b4, 0.0), Dot(a0, a1, a2, b2, b5, 1.0), x, y)
  {
  }

  /** A map whose entries are whole numbers composes exactly: applying
      `b` then `a` is applying `a * b`, once the bottom row of `b` is the
      affine `(0, 0, 1)`. */
  lemma ApplyMulWhole(a: Affine, b: Affine, p: Point)
    requires forall i :: 0 <= i < 6 ==> Whole(b.m[i])
    requires b.m[6] == 0.0 && b.m[7] == 0.0 && b.m[8] == 1.0
    ensures Apply(a, Apply(b, p)) == Apply(Mul(a, b), p)
  {
    var q := Apply(b, p);
    ApplyExact(b, p);
    var ab := Mul(a, b);
    RowImage(a.m[0], a.m[1], a.m[2], b.m[0], b.m[1], b.m[2], b.m[3], b.m[4], b.m[5], p.x, p.y, q.x, q.y);
    RowImage(a.m[3], a.m[4], a.m[5], b.m[0], b.m[1], b.m[2], b.m[3], b.m[4], b.m[5], p.x, p.y, q.x, q.y);
    assert ab.m[0] == Entry(a, b, 0, 0) && ab.m[1] == Entry(a, b, 0, 1) && ab.m[2] == Entry(a, b, 0, 2);
    assert ab.m[3] == Entry(a, b, 1, 0) && ab.m[4] == Entry(a, b, 1, 1) && ab.m[5] == Entry(a, b, 1, 2);
  }

  /** `Affine::operator()` on a span of strokes: each stroke keeps its
      diameter and has each point mapped; the input is a value and stays
      as it was. */
  function ApplyStrokes(a: Affine, strokes: seq<Stroke>): (r: seq<Stroke>)
    ensures |r| == |strokes|
    ensures forall i :: 0 <= i < |strokes| ==>
      r[i].diameter == strokes[i].diameter && |r[i].points| == |strokes[i].points| &&
      forall j :: 0 <= j < |strokes[i].points| ==> r[i].points[j] == Apply(a, strokes[i].points[j])
  {
    seq(|strokes|, i requires 0 <= i < |strokes| =>
      Stroke(strokes[i].diameter,
             seq(|strokes[i].points|, j requires 0 <= j < |strokes[i].points| => Apply(a, strokes[i].points[j]))))
  }

  /** Applying the identity keeps every stroke whose points are at full
      pressure. */
  lemma ApplyStrokesIdentity(strokes: seq<Stroke>)
    requires forall i, j :: 0 <= i < |strokes| && 0 <= j < |strokes[i].points| ==> strokes[i].points[j].pressure == 1.0
    ensures ApplyStrokes(Identity, strokes) == strokes
  {
    var r := ApplyStrokes(Identity, strokes);
    forall i | 0 <= i < |strokes|
      ensures r[i] == strokes[i]
    {
      forall j | 0 <= j < |strokes[i].points|
        ensures r[i].points[j] == strokes[i].points[j]
      {
        ApplyIdentity(strokes[i].points[j]);
      }
    }
  }

  /** Mapping the strokes by `b` and then by `a` maps them by `a * b`,
      once `b` has whole entries and the affine bottom row. */
  lemma ApplyStrokesCompose(a: Affine, b: Affine, strokes: seq<Stroke>)
    requires forall i :: 0 <= i < 6 ==> Whole(b.m[i])
    requires b.m[6] == 0.0 && b.m[7] == 0.0 && b.m[8] == 1.0
    ensures ApplyStrokes(a, ApplyStrokes(b, strokes)) == ApplyStrokes(Mul(a, b), strokes)
  {
    var l, r := ApplyStrokes(a, ApplyStrokes(b, strokes)), ApplyStrokes(Mul(a, b), strokes);
    forall i | 0 <= i < |strokes|
      ensures l[i] == r[i]
    {
      forall j | 0 <= j < |strokes[i].points|
        ensures l[i].points[j] == r[i].points[j]
      {
        ApplyMulWhole(a, b, strokes[i].points[j]);
      }
    }
  }

  /* ~~ Array ~~~~~~~~~~~~~~~~~~~~~~~~~~~~~~~~~~~~~~~~~~~~~~~~~~~~~~~~~~~~~ */

  /** `Util::pow(transformation, i)`: the `i`-fold product, starting from
      `Affine(1)`, the identity. */
  function Power(a: Affine, i: nat): Affine {
    if i == 0 then Identity else Mul(Power(a, i - 1), a)
  }

  /** Powers add: `a^i * a^j == a^(i + j)`. */
  lemma {:induction false} PowerAdd(a: Affine, i: nat, j: nat)
    ensures Mul(Power(a, i), Power(a, j)) == Power(a, i + j)
    decreases j
  {
    if j == 0 {
      MulIdentity(Power(a, i));
    } else {
      PowerAdd(a, i, j - 1);
      MulAssoc(Power(a, i), Power(a, j - 1), a);
    }
  }

  /** The strokes of `Array(n, tf)`: `n` groups, group `i` being the input
      under `tf^i`. */
  function Replicate(n: nat, tf: Affine, strokes: seq<Stroke>): seq<Stroke> {
    if n == 0 then [] else Replicate(n - 1, tf, strokes) + ApplyStrokes(Power(tf, n - 1), strokes)
  }

  /** `Array::operator()`: appends the input under `tf^i` for each `i`
      below `n`. */
  method ArrayApply(n: nat, tf: Affine, strokes: seq<Stroke>) returns (result: seq<Stroke>)
    ensures result == Replicate(n, tf, strokes)
  {
    result := [];
    var i := 0;
    while i < n
      invariant i <= n
      invariant result == Replicate(i, tf, strokes)
    {
      result := result + ApplyStrokes(Power(tf, i), strokes);
      i := i + 1;
    }
  }

  /** A slice inside the left operand of a concatenation. */
  lemma SliceLeft<T>(a: seq<T>, b: seq<T>, lo: nat, hi: nat)
    requires lo <= hi <= |a|
    ensures hi <= |a + b| && (a + b)[lo..hi] == a[lo..hi]
  {
  }

  lemma SliceRight<T>(a: seq<T>, b: seq<T>, lo: nat, hi: nat)
    requires lo == |a| && hi == lo + |b|
    ensures hi <= |a + b| && (a + b)[lo..hi] == b
  {
  }

  /** `Array(n, tf)` holds `n` times as many strokes; `n == 0` gives
      none. */
  lemma {:induction false} ReplicateLength(n: nat, tf: Affine, strokes: seq<Stroke>)
    ensures |Replicate(n, tf, strokes)| == n * |strokes|
  {
    if n > 0 {
      ReplicateLength(n - 1, tf, strokes);
      MulSucc(n - 1, |strokes|);
    }
  }

  /** Group `i` of `Array(n, tf)` is the input under `tf^i`. */
  lemma {:induction false} ReplicateGroup(n: nat, tf: Affine, strokes: seq<Stroke>, i: nat)
    requires i < n
    ensures (i + 1) * |strokes| <= |Replicate(n, tf, strokes)|
    ensures Replicate(n, tf, strokes)[i * |strokes| .. (i + 1) * |strokes|] == ApplyStrokes(Power(tf, i), strokes)
  {
    var k := |strokes|;
    var prev := Replicate(n - 1, tf, strokes);
    var last := ApplyStrokes(Power(tf, n - 1), strokes);
    assert Replicate(n, tf, strokes) == prev + last;
    ReplicateLength(n - 1, tf, strokes);
    MulSucc(i, k);
    if i < n - 1 {
      ReplicateGroup(n - 1, tf, strokes, i);
      SliceLeft(prev, last, i * k, (i + 1) * k);
    } else {
      SliceRight(prev, last, i * k, (i + 1) * k);
    }
  }

  /* ~~ Uppercase ~~~~~~~~~~~~~~~~~~~~~~~~~~~~~~~~~~~~~~~~~~~~~~~~~~~~~~~~ */

  /** The `toUpperC` lambda: ASCII lower case to upper case. */
  function ToUpper(c: char): char {
    if 'a' <= c <= 'z' then (c as int - 32) as char else c
  }

  /** `Uppercase::operator()`: every marker's text with each character
      passed through `toUpperC`. */
  function UppercaseMarkers(markers: seq<Marker>): seq<Marker> {
    seq(|markers|, i requires 0 <= i < |markers| =>
      Marker(seq(|markers[i].text|, j requires 0 <= j < |markers[i].text| => ToUpper(markers[i].text[j]))))
  }

  /** `Uppercase` keeps the number of markers and each text's length,
      maps 'a'..'z' onto 'A'..'Z' and leaves every other character alone. */
  lemma UppercaseEffect(markers: seq<Marker>)
    ensures var r := UppercaseMarkers(markers);
      |r| == |markers| &&
      forall i :: 0 <= i < |markers| ==>
        |r[i].text| == |markers[i].text| &&
        forall j :: 0 <= j < |markers[i].text| ==>
          var c, u := markers[i].text[j], r[i].text[j];
          ('a' <= c <= 'z' ==> 'A' <= u <= 'Z' && u as int - 'A' as int == c as int - 'a' as int) &&
          (!('a' <= c <= 'z') ==> u == c)
  {
  }

  /** Applying `Uppercase` twice is applying it once. */
  lemma UppercaseIdempotent(markers: seq<Marker>)
    ensures UppercaseMarkers(UppercaseMarkers(markers)) == UppercaseMarkers(markers)
  {
    var r := UppercaseMarkers(markers);
    forall i | 0 <= i < |markers|
      ensures UppercaseMarkers(r)[i] == r[i]
    {
      assert UppercaseMarkers(r)[i].text == r[i].text;
    }
  }
}
