/**
 * The draft `RawFormat::parse` of src/parser.cc: the raw format read in
 * one pass over the text, without a token list. Every maximal run of
 * non-whitespace characters is one stroke; a run whose length is not a
 * multiple of four fails with `StrokeLength`, and four characters whose
 * halves are not both two base-36 digits fail with `ForeignDigit`. The
 * errors of this draft carry no position.
 */
module RawDraft {
  import opened Results
  import opened Util
  import opened ParserBase
  import opened Types
  import opened Document
  import Arith
  import Numeral
  import RawFormat

  /* ~~ What the draft reads ~~~~~~~~~~~~~~~~~~~~~~~~~~~~~~~~~~~~~~~~~~~~~ */

  /** `Base36::parse<2,unsigned>` of one coordinate; any failure is `None`. */
  function Coordinate(c: string): Option<int>
    requires |c| == 2
  {
    match Numeral.Decode(Numeral.Base36, 2, false, c)
    case Ok(v) => Some(v)
    case Err(_) => None
  }

  /** The point four characters stand for: `x` from the first two, `y`
      from the last two, when both decode. */
  function ChunkPoint(c: string): Option<RawPoint>
    requires |c| == 4
  {
    match (Coordinate(c[..2]), Coordinate(c[2..]))
    case (Some(x), Some(y)) => Some(RawPoint(x, y))
    case _ => None
  }

  /** The points of a run, four characters each, failing with
      `ForeignDigit` at the first group that does not decode. `RunStroke`
      has already refused a run whose length is not a multiple of four, so
      the tail shorter than a group is the empty one. */
  function RunPoints(w: string): Result<seq<RawPoint>, ParseError>
    decreases |w|
  {
    if |w| < 4 then Ok([])
    else
      match ChunkPoint(w[..4])
      case None => Err(Raise(ForeignDigit))
      case Some(p) =>
        var rest :- RunPoints(w[4..]);
        Ok([p] + rest)
  }

  /** A run of at least four characters reads as the point of its first
      four, then the points of the rest. */
  lemma RunPointsCons(w: string)
    requires |w| >= 4
    ensures RunPoints(w).Ok? <==> ChunkPoint(w[..4]).Some? && RunPoints(w[4..]).Ok?
    ensures RunPoints(w).Ok? ==> RunPoints(w).value == [ChunkPoint(w[..4]).value] + RunPoints(w[4..]).value
  {
  }

  /** The stroke one run stands for. */
  function RunStroke(w: string): Result<RawStroke, ParseError> {
    if |w| % 4 != 0 then Err(Raise(StrokeLength))
    else
      var points :- RunPoints(w);
      Ok(RawStroke(points))
  }

  /** What the draft returns for the runs of a text: one stroke per run,
      or the error of the first run that fails. */
  function DraftRead(words: seq<string>): Result<RawSketch, ParseError> {
    if words == [] then Ok(RawSketch([]))
    else
      var stroke :- RunStroke(words[0]);
      var rest :- DraftRead(words[1..]);
      Ok(RawSketch([stroke] + rest.strokes))
  }

  /* ~~ The draft's loops ~~~~~~~~~~~~~~~~~~~~~~~~~~~~~~~~~~~~~~~~~~~~~~~~ */

  /** `points` put in front of the points of a result. */
  function Prepend(points: seq<RawPoint>, r: Result<seq<RawPoint>, ParseError>): Result<RawStroke, ParseError> {
    match r
    case Ok(ps) => Ok(RawStroke(points + ps))
    case Err(e) => Err(e)
  }

  /** `strokes` put in front of the strokes of a result. */
  function Extend(strokes: seq<RawStroke>, r: Result<RawSketch, ParseError>): Result<RawSketch, ParseError> {
    match r
    case Ok(v) => Ok(RawSketch(strokes + v.strokes))
    case Err(e) => Err(e)
  }

  /** The inner loop of the draft: the run `s[i..j]` four characters at a
      time, with `substr(k, 2)` and `substr(k + 2, 2)` as the coordinates. */
  method ReadRun(s: string, i: nat, j: nat) returns (r: Result<RawStroke, ParseError>)
    requires i <= j <= |s|
    ensures r == RunStroke(s[i..j])
  {
    if (j - i) % 4 != 0 {
      return Err(Raise(StrokeLength));
    }
    ghost var whole := RunStroke(s[i..j]);
    ghost var n := RunStart(s, i, j);
    var points: seq<RawPoint> := [];
    var k := i;
    while k < j
      invariant i <= k <= j && j - k == n * 4
      invariant whole == Prepend(points, RunPoints(s[k..j]))
      decreases j - k
    {
      RunStep(s, k, j, n, points);
      var x := Coordinate(s[k..k + 2]);
      var y := Coordinate(s[k + 2..k + 4]);
      if x.None? || y.None? {
        return Err(Raise(ForeignDigit));
      }
      points := points + [RawPoint(x.value, y.value)];
      k := k + 4;
      n := n - 1;
    }
    assert RunPoints(s[j..j]) == Ok([]) && points + [] == points;
    return Ok(RawStroke(points));
  }

  /** The draft's first inner loop: past the whitespace at `i`. */
  method SkipWhitespace(s: string, i0: nat) returns (i: nat)
    requires i0 <= |s|
    ensures i0 <= i <= |s| && (i == |s| || !IsWhitespace(s[i]))
    ensures RawFormat.Words(s[i..]) == RawFormat.Words(s[i0..])
  {
    i := i0;
    ghost var unread := RawFormat.Words(s[i0..]);
    while i < |s| && IsWhitespace(s[i])
      invariant i0 <= i <= |s|
      invariant RawFormat.Words(s[i..]) == unread
    {
      RawFormat.WordsSkip(s, i);
      i := i + 1;
    }
  }

  /** The draft's second inner loop: the end of the run starting at `i`. */
  method RunEnd(s: string, i: nat) returns (j: nat)
    requires i <= |s|
    ensures i <= j <= |s| && (j == |s| || IsWhitespace(s[j]))
    ensures forall m :: i <= m < j ==> !IsWhitespace(s[m])
  {
    j := i;
    while j < |s| && !IsWhitespace(s[j])
      invariant i <= j <= |s|
      invariant forall m :: i <= m < j ==> !IsWhitespace(s[m])
    {
      j := j + 1;
    }
  }

  /** Before the inner loop: a run whose length passed the check is `n`
      groups of four, and no point is read yet. */
  lemma RunStart(s: string, i: nat, j: nat) returns (n: nat)
    requires i <= j <= |s| && (j - i) % 4 == 0
    ensures j - i == n * 4
    ensures RunStroke(s[i..j]) == Prepend([], RunPoints(s[i..j]))
  {
    n := (j - i) / 4;
    Arith.DivMod(j - i, 4);
    if RunPoints(s[i..j]).Ok? {
      assert [] + RunPoints(s[i..j]).value == RunPoints(s[i..j]).value;
    }
  }

  /** One turn of the inner loop: the next four characters fail the run
      or add their point to the ones read so far. */
  lemma RunStep(s: string, k: nat, j: nat, n: nat, points: seq<RawPoint>)
    requires k < j <= |s| && j - k == n * 4
    ensures k + 4 <= j && j - (k + 4) == (n - 1) * 4
    ensures Coordinate(s[k..k + 2]).None? || Coordinate(s[k + 2..k + 4]).None? ==>
      RunPoints(s[k..j]) == Err(Raise(ForeignDigit))
    ensures Coordinate(s[k..k + 2]).Some? && Coordinate(s[k + 2..k + 4]).Some? ==>
      var p := RawPoint(Coordinate(s[k..k + 2]).value, Coordinate(s[k + 2..k + 4]).value);
      Prepend(points, RunPoints(s[k..j])) == Prepend(points + [p], RunPoints(s[k + 4..j]))
  {
    var w := s[k..j];
    assert w[..4] == s[k..k + 4] && w[4..] == s[k + 4..j];
    assert s[k..k + 4][..2] == s[k..k + 2] && s[k..k + 4][2..] == s[k + 2..k + 4];
    var later := RunPoints(s[k + 4..j]);
    if ChunkPoint(w[..4]).Some? && later.Ok? {
      AppendAssoc(points, [ChunkPoint(w[..4]).value], later.value);
    }
  }

  /** The draft `RawFormat::parse`: skips whitespace, takes the longest run
      of other characters and reads it as a stroke, until the text is used
      up or a run fails. */
  method DraftParse(s: string) returns (r: Result<RawSketch, ParseError>)
    ensures r == DraftRead(RawFormat.Words(s))
  {
    var strokes: seq<RawStroke> := [];
    var i := 0;
    assert s[0..] == s;
    if DraftRead(RawFormat.Words(s)).Ok? {
      assert [] + DraftRead(RawFormat.Words(s)).value.strokes == DraftRead(RawFormat.Words(s)).value.strokes;
    }
    while i < |s|
      invariant i <= |s|
      invariant DraftRead(RawFormat.Words(s)) == Extend(strokes, DraftRead(RawFormat.Words(s[i..])))
      decreases |s| - i
    {
      i := SkipWhitespace(s, i);
      if i == |s| {
        break;
      }
      var j := RunEnd(s, i);
      RawFormat.WordsRun(s, i, j);
      ghost var words := RawFormat.Words(s[i..]);
      assert words[0] == s[i..j] && words[1..] == RawFormat.Words(s[j..]);
      var stroke := ReadRun(s, i, j);
      if stroke.Err? {
        return stroke.PropagateFailure();
      }
      ghost var later := DraftRead(RawFormat.Words(s[j..]));
      if later.Ok? {
        AppendAssoc(strokes, [stroke.value], later.value.strokes);
      }
      strokes := strokes + [stroke.value];
      i := j;
    }
    assert s[i..] == [] && RawFormat.Words([]) == [];
    assert strokes + [] == strokes;
    return Ok(RawSketch(strokes));
  }

  /* ~~ Agreement with rawParse ~~~~~~~~~~~~~~~~~~~~~~~~~~~~~~~~~~~~~~~~~~ */

  /** The integer points of raw points. */
  function FlatPoints(ps: seq<RawPoint>): (fs: seq<FlatPoint>)
    ensures |fs| == |ps|
    ensures forall k :: 0 <= k < |ps| ==> fs[k] == FlatPoint(ps[k].x, ps[k].y)
  {
    seq(|ps|, k requires 0 <= k < |ps| => FlatPoint(ps[k].x, ps[k].y))
  }

  /** The integer strokes of raw strokes. */
  function FlatStrokes(ss: seq<RawStroke>): (fs: seq<FlatStroke>)
    ensures |fs| == |ss|
  {
    if ss == [] then [] else [FlatStroke(FlatPoints(ss[0].points))] + FlatStrokes(ss[1..])
  }

  /** The records `parseTuples` gives for points: `[x, y]` each. */
  function PointRecords(ps: seq<RawPoint>): (rs: seq<seq<int>>)
    ensures |rs| == |ps|
    ensures forall k :: 0 <= k < |ps| ==> rs[k] == [ps[k].x, ps[k].y]
  {
    if ps == [] then [] else [[ps[0].x, ps[0].y]] + PointRecords(ps[1..])
  }

  /** `decodeRecords` with the raw point fields. */
  function PointRecordsOf(w: string): Result<seq<seq<int>>, Numeral.CodecError> {
    RawFormat.PointWidth();
    Numeral.DecodeRecords(Numeral.Base36, RawFormat.PointFields, w)
  }

  /** `decodeRecord` of one point's four characters. */
  function PointRecordOf(c: string): Result<seq<int>, Numeral.CodecError>
    requires |c| == 4
  {
    RawFormat.PointWidth();
    Numeral.DecodeRecord(Numeral.Base36, RawFormat.PointFields, c)
  }

  /** Four characters decode as one record exactly when they make a point,
      and the record is that point's coordinates. */
  lemma ChunkRecord(c: string)
    requires |c| == 4
    ensures PointRecordOf(c).Ok? <==> ChunkPoint(c).Some?
    ensures ChunkPoint(c).Some? ==> PointRecordOf(c).value == [ChunkPoint(c).value.x, ChunkPoint(c).value.y]
  {
    RawFormat.PointWidth();
    Numeral.DecodeRecordPair(Numeral.Base36, Numeral.Field(2, false), Numeral.Field(2, false), c);
  }

  /** A run decodes with `decodeRecords` exactly when the draft reads its
      points, and then to those points' records. */
  lemma {:induction false} RunRecords(w: string)
    requires |w| % 4 == 0
    ensures RunPoints(w).Ok? <==> PointRecordsOf(w).Ok?
    ensures RunPoints(w).Ok? ==> PointRecordsOf(w).value == PointRecords(RunPoints(w).value)
    decreases |w|
  {
    RawFormat.PointWidth();
    if w != [] {
      Arith.MultipleStep(|w|, 4);
      ChunkRecord(w[..4]);
      RunRecords(w[4..]);
      if RunPoints(w).Ok? {
        var p := ChunkPoint(w[..4]).value;
        assert RunPoints(w).value == [p] + RunPoints(w[4..]).value;
        assert ([p] + RunPoints(w[4..]).value)[1..] == RunPoints(w[4..]).value;
      }
    }
  }

  /** Per run: the draft accepts a run exactly when `rawParse` decodes it,
      and both read the same points. */
  lemma RunAgrees(w: string)
    ensures RunStroke(w).Ok? <==> RawFormat.StrokeOf(w).Some?
    ensures RunStroke(w).Ok? ==> RawFormat.StrokeOf(w).value == FlatStroke(FlatPoints(RunStroke(w).value.points))
  {
    RawFormat.PointWidth();
    Numeral.Base36Valid();
    if |w| % 4 == 0 {
      RunRecords(w);
      if RunStroke(w).Ok? {
        var ps := RunStroke(w).value.points;
        Numeral.ParseTuplesShape(Numeral.Base36, RawFormat.PointFields, w);
        assert RawFormat.PointsOf(PointRecords(ps)) == FlatPoints(ps);
      }
    }
  }

  /** Over a whole text: the draft succeeds exactly when `rawParse` of the
      tokenized text does, with the same strokes; when it fails, it fails
      with `StrokeLength` or `ForeignDigit` and no position. */
  lemma {:induction false} DraftAgrees(words: seq<string>)
    ensures DraftRead(words).Ok? <==> RawFormat.RawRead(RawFormat.Unplaced(words)).Ok?
    ensures DraftRead(words).Ok? ==>
      RawFormat.RawRead(RawFormat.Unplaced(words)).value == FlatSketch(FlatStrokes(DraftRead(words).value.strokes))
    ensures DraftRead(words).Err? ==>
      DraftRead(words).error in {Raise(StrokeLength), Raise(ForeignDigit)}
    decreases |words|
  {
    if words != [] {
      var tokens := RawFormat.Unplaced(words);
      assert tokens[1..] == RawFormat.Unplaced(words[1..]);
      RunAgrees(words[0]);
      DraftAgrees(words[1..]);
      RunErrors(words[0]);
      if DraftRead(words).Ok? {
        var st := RunStroke(words[0]).value;
        var rest := DraftRead(words[1..]).value.strokes;
        assert ([st] + rest)[1..] == rest;
      }
    }
  }

  /** A run fails with `StrokeLength` or `ForeignDigit` and nothing else. */
  lemma RunErrors(w: string)
    ensures RunStroke(w).Err? ==> RunStroke(w).error in {Raise(StrokeLength), Raise(ForeignDigit)}
  {
    if |w| % 4 == 0 {
      RunPointsErrors(w);
    }
  }

  lemma {:induction false} RunPointsErrors(w: string)
    ensures RunPoints(w).Err? ==> RunPoints(w).error == Raise(ForeignDigit)
    decreases |w|
  {
    if |w| >= 4 {
      RunPointsErrors(w[4..]);
    }
  }

  /** The draft and `RawFormat::parse` agree on every text. */
  lemma DraftParseAgrees(s: string)
    ensures DraftRead(RawFormat.Words(s)).Ok? <==> RawFormat.RawRead(RawFormat.Unplaced(RawFormat.Words(s))).Ok?
    ensures DraftRead(RawFormat.Words(s)).Ok? ==>
      RawFormat.RawRead(RawFormat.Unplaced(RawFormat.Words(s))).value
        == FlatSketch(FlatStrokes(DraftRead(RawFormat.Words(s)).value.strokes))
  {
    DraftAgrees(RawFormat.Words(s));
  }
}
