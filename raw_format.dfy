/**
 * `RawFormat` of src/parsers.cc: the legacy whitespace-separated format.
 * Each word is one stroke, written as `(x, y)` pairs of two-digit unsigned
 * base-36 numbers. Reading splits the text into words and decodes every
 * word with `Base36::parseTuples`; printing writes a space and then four
 * digits per point for every stroke.
 */
module RawFormat {
  import opened Results
  import opened Util
  import opened ParserBase
  import opened Document
  import Numeral

  /* ~~ tokenize ~~~~~~~~~~~~~~~~~~~~~~~~~~~~~~~~~~~~~~~~~~~~~~~~~~~~~~~~~ */

  /** The length of the run of non-whitespace characters `t` starts with. */
  function RunLength(t: string): (k: nat)
    ensures k <= |t|
    ensures forall m :: 0 <= m < k ==> !IsWhitespace(t[m])
    ensures k == |t| || IsWhitespace(t[k])
  {
    if t == [] || IsWhitespace(t[0]) then 0 else 1 + RunLength(t[1..])
  }

  /** The whitespace-separated words of `t`, in order. */
  function Words(t: string): seq<string>
    decreases |t|
  {
    if t == [] then []
    else if IsWhitespace(t[0]) then Words(t[1..])
    else
      var k := RunLength(t);
      [t[..k]] + Words(t[k..])
  }

  /** Every word is non-empty and holds no whitespace. */
  lemma {:induction false} WordsShape(t: string)
    ensures forall k :: 0 <= k < |Words(t)| ==>
      |Words(t)[k]| >= 1 && forall m :: 0 <= m < |Words(t)[k]| ==> !IsWhitespace(Words(t)[k][m])
    decreases |t|
  {
    if t != [] {
      if IsWhitespace(t[0]) {
        WordsShape(t[1..]);
      } else {
        WordsShape(t[RunLength(t)..]);
      }
    }
  }

  /** Whitespace in front of a text adds no word. */
  lemma WordsSpace(t: string)
    ensures Words(" " + t) == Words(t)
  {
    CharClasses(' ');
    assert (" " + t)[1..] == t;
  }

  /** A whitespace-free word followed by the end of the text or by
      whitespace is read as that word, and reading resumes after it. */
  lemma WordsCons(w: string, rest: string)
    requires |w| >= 1 && forall m :: 0 <= m < |w| ==> !IsWhitespace(w[m])
    requires rest == [] || IsWhitespace(rest[0])
    ensures Words(w + rest) == [w] + Words(rest)
  {
    var t := w + rest;
    assert t[0] == w[0];
    assert RunLength(t) == |w| by {
      assert forall m :: 0 <= m < |w| ==> t[m] == w[m];
      assert |w| == |t| || t[|w|] == rest[0];
    }
    assert t[..|w|] == w && t[|w|..] == rest;
  }

  /** The text of a token the raw tokenizer makes: no position. */
  function Unplaced(words: seq<string>): (ts: seq<Token>)
    ensures |ts| == |words|
    ensures forall k :: 0 <= k < |words| ==> ts[k] == Token(words[k], Unknown)
  {
    seq(|words|, k requires 0 <= k < |words| => Token(words[k], Unknown))
  }

  /** A whitespace character in front adds no word. */
  lemma WordsSkip(s: string, i: nat)
    requires i < |s| && IsWhitespace(s[i])
    ensures Words(s[i..]) == Words(s[i + 1..])
  {
    assert s[i..][1..] == s[i + 1..];
  }

  /** A maximal run `s[i..j]` of other characters is the next word. */
  lemma WordsRun(s: string, i: nat, j: nat)
    requires i < j <= |s|
    requires forall m :: i <= m < j ==> !IsWhitespace(s[m])
    requires j == |s| || IsWhitespace(s[j])
    ensures Words(s[i..]) == [s[i..j]] + Words(s[j..])
  {
    var t := s[i..];
    assert RunLength(t) == j - i by {
      assert forall m :: 0 <= m < j - i ==> t[m] == s[i + m];
    }
    assert t[..j - i] == s[i..j] && t[j - i..] == s[j..];
  }

  lemma UnplacedSnoc(words: seq<string>, w: string)
    ensures Unplaced(words + [w]) == Unplaced(words) + [Token(w, Unknown)]
  {
    var a, b := Unplaced(words + [w]), Unplaced(words) + [Token(w, Unknown)];
    assert |a| == |b| && forall k :: 0 <= k < |a| ==> a[k] == b[k];
  }

  /** `RawFormat::tokenize`: skips whitespace, then takes the longest run
      of other characters as one token, until the text is used up. */
  method Tokenize(s: string) returns (tokens: seq<Token>)
    ensures tokens == Unplaced(Words(s))
  {
    tokens := [];
    ghost var words: seq<string> := [];
    var i := 0;
    while i < |s|
      invariant i <= |s|
      invariant words + Words(s[i..]) == Words(s)
      invariant tokens == Unplaced(words)
      decreases |s| - i
    {
      while i < |s| && IsWhitespace(s[i])
        invariant i <= |s|
        invariant words + Words(s[i..]) == Words(s)
      {
        WordsSkip(s, i);
        i := i + 1;
      }
      if i == |s| {
        break;
      }
      var j := i;
      while j < |s| && !IsWhitespace(s[j])
        invariant i <= j <= |s|
        invariant forall m :: i <= m < j ==> !IsWhitespace(s[m])
      {
        j := j + 1;
      }
      WordsRun(s, i, j);
      AppendAssoc(words, [s[i..j]], Words(s[j..]));
      UnplacedSnoc(words, s[i..j]);
      words := words + [s[i..j]];
      tokens := tokens + [Token(s[i..j], Unknown)];
      i := j;
    }
    assert s[i..] == [];
  }

  /* ~~ rawParse ~~~~~~~~~~~~~~~~~~~~~~~~~~~~~~~~~~~~~~~~~~~~~~~~~~~~~~~~~ */

  /** The two fields of a raw point: `Number_t<2,unsigned>` twice. */
  const PointFields: seq<Numeral.Field> := [Numeral.Field(2, false), Numeral.Field(2, false)]

  lemma PointWidth()
    ensures Numeral.RecordWidth(PointFields) == 4
  {
    assert PointFields[1..][1..] == [];
  }

  /** The points of decoded `(x, y)` records, in order. */
  function PointsOf(records: seq<seq<int>>): (ps: seq<FlatPoint>)
    requires forall k :: 0 <= k < |records| ==> |records[k]| == 2
    ensures |ps| == |records|
    ensures forall k :: 0 <= k < |records| ==> ps[k] == FlatPoint(records[k][0], records[k][1])
  {
    seq(|records|, k requires 0 <= k < |records| => FlatPoint(records[k][0], records[k][1]))
  }

  /** The stroke a raw token stands for, when `parseTuples` accepts it. */
  function StrokeOf(text: string): Option<FlatStroke> {
    Numeral.Base36Valid();
    PointWidth();
    match Numeral.ParseTuples(Numeral.Base36, PointFields, text)
    case Err(_) => None
    case Ok(records) =>
      Numeral.ParseTuplesShape(Numeral.Base36, PointFields, text);
      Some(FlatStroke(PointsOf(records)))
  }

  /** What `rawParse` returns: one stroke per token, or the
      `MalformedNumberTuple` of the first token that does not decode, at
      that token's position. */
  function RawRead(tokens: seq<Token>): Result<FlatSketch, ParseError> {
    if tokens == [] then Ok(FlatSketch([]))
    else
      match StrokeOf(tokens[0].text)
      case None => Err(Locate(Raise(MalformedNumberTuple), tokens[0].pos))
      case Some(st) =>
        var rest :- RawRead(tokens[1..]);
        Ok(FlatSketch([st] + rest.strokes))
  }

  /** `strokes` put in front of a result's strokes. */
  function Extend(strokes: seq<FlatStroke>, r: Result<FlatSketch, ParseError>): Result<FlatSketch, ParseError> {
    match r
    case Ok(v) => Ok(FlatSketch(strokes + v.strokes))
    case Err(e) => Err(e)
  }

  /** `RawFormat::rawParse`: decodes the tokens in order and stops at the
      first one that fails. */
  method RawParse(tokens: seq<Token>) returns (r: Result<FlatSketch, ParseError>)
    ensures r == RawRead(tokens)
  {
    var strokes: seq<FlatStroke> := [];
    assert tokens[0..] == tokens;
    if RawRead(tokens).Ok? {
      assert [] + RawRead(tokens).value.strokes == RawRead(tokens).value.strokes;
    }
    for i := 0 to |tokens|
      invariant RawRead(tokens) == Extend(strokes, RawRead(tokens[i..]))
    {
      var tkn := tokens[i];
      assert tokens[i..][1..] == tokens[i + 1..];
      var points := StrokeOf(tkn.text);
      if points.None? {
        return Err(Locate(Raise(MalformedNumberTuple), tkn.pos));
      }
      ghost var later := RawRead(tokens[i + 1..]);
      if later.Ok? {
        AppendAssoc(strokes, [points.value], later.value.strokes);
      }
      strokes := strokes + [points.value];
    }
    assert tokens[|tokens|..] == [] && strokes + [] == strokes;
    return Ok(FlatSketch(strokes));
  }

  /** `RawFormat::parse`: `rawParse` of `tokenize`. */
  method Parse(s: string) returns (r: Result<FlatSketch, ParseError>)
    ensures r == RawRead(Unplaced(Words(s)))
  {
    var tokens := Tokenize(s);
    r := RawParse(tokens);
  }

  /** A read succeeds exactly when every token decodes, and then holds
      their strokes in order; otherwise it fails at the first token that
      does not decode, with `MalformedNumberTuple` and that token's
      position, and no partial sketch. */
  lemma RawReadResult(tokens: seq<Token>)
    ensures RawRead(tokens).Ok? <==> forall k :: 0 <= k < |tokens| ==> StrokeOf(tokens[k].text).Some?
    ensures RawRead(tokens).Ok? ==>
      |RawRead(tokens).value.strokes| == |tokens| &&
      forall k :: 0 <= k < |tokens| ==> StrokeOf(tokens[k].text) == Some(RawRead(tokens).value.strokes[k])
    ensures RawRead(tokens).Err? ==>
      exists k :: 0 <= k < |tokens| && StrokeOf(tokens[k].text).None? &&
        (forall m :: 0 <= m < k ==> StrokeOf(tokens[m].text).Some?) &&
        RawRead(tokens).error == ParseError(MalformedNumberTuple, tokens[k].pos)
  {
    RawReadDecoded(tokens);
    if RawRead(tokens).Err? {
      RawReadFailed(tokens);
    }
  }

  /** The success half of `RawReadResult`. */
  lemma {:induction false} RawReadDecoded(tokens: seq<Token>)
    ensures RawRead(tokens).Ok? <==> forall k :: 0 <= k < |tokens| ==> StrokeOf(tokens[k].text).Some?
    ensures RawRead(tokens).Ok? ==>
      |RawRead(tokens).value.strokes| == |tokens| &&
      forall k :: 0 <= k < |tokens| ==> StrokeOf(tokens[k].text) == Some(RawRead(tokens).value.strokes[k])
    decreases |tokens|
  {
    if tokens != [] {
      var rest := tokens[1..];
      RawReadDecoded(rest);
      match StrokeOf(tokens[0].text)
      case None =>
        assert RawRead(tokens).Err?;
      case Some(st) =>
        if RawRead(rest).Ok? {
          var strokes := [st] + RawRead(rest).value.strokes;
          assert RawRead(tokens) == Ok(FlatSketch(strokes));
          forall k | 0 <= k < |tokens|
            ensures StrokeOf(tokens[k].text) == Some(strokes[k])
          {
            if k > 0 {
              assert tokens[k] == rest[k - 1];
            }
          }
        } else {
          assert RawRead(tokens).Err?;
          var k :| 0 <= k < |rest| && StrokeOf(rest[k].text).None?;
          assert StrokeOf(tokens[k + 1].text).None?;
        }
    }
  }

  /** The failure half of `RawReadResult`. */
  lemma {:induction false} RawReadFailed(tokens: seq<Token>)
    requires RawRead(tokens).Err?
    ensures exists k :: (0 <= k < |tokens| && StrokeOf(tokens[k].text).None? &&
        (forall m :: 0 <= m < k ==> StrokeOf(tokens[m].text).Some?) &&
        RawRead(tokens).error == ParseError(MalformedNumberTuple, tokens[k].pos))
    decreases |tokens|
  {
    if StrokeOf(tokens[0].text).None? {
      assert StrokeOf(tokens[0].text).None?;
    } else {
      var rest := tokens[1..];
      assert RawRead(rest).Err? && RawRead(tokens).error == RawRead(rest).error;
      RawReadFailed(rest);
      var k :| 0 <= k < |rest| && StrokeOf(rest[k].text).None? &&
        (forall m :: 0 <= m < k ==> StrokeOf(rest[m].text).Some?) &&
        RawRead(rest).error == ParseError(MalformedNumberTuple, rest[k].pos);
      assert forall m :: 1 <= m < k + 1 ==> tokens[m] == rest[m - 1];
      assert tokens[k + 1] == rest[k];
    }
  }

  /** A decoded stroke has one point per four characters, and every
      coordinate is a two-digit unsigned base-36 value: `0 <= x, y < 1296`. */
  lemma StrokeOfRange(text: string)
    ensures StrokeOf(text).Some? ==>
      4 * |StrokeOf(text).value.points| == |text| &&
      forall k :: 0 <= k < |StrokeOf(text).value.points| ==>
        var p := StrokeOf(text).value.points[k];
        0 <= p.x < 1296 && 0 <= p.y < 1296
  {
    Numeral.Base36Valid();
    PointWidth();
    Numeral.ParseTuplesShape(Numeral.Base36, PointFields, text);
    if StrokeOf(text).Some? {
      var records := Numeral.ParseTuples(Numeral.Base36, PointFields, text).value;
      Capacity2();
      forall k | 0 <= k < |records|
        ensures 0 <= records[k][0] < 1296 && 0 <= records[k][1] < 1296
      {
        assert Numeral.RecordInRange(Numeral.Base36, PointFields, records[k]);
        assert Numeral.InRange(Numeral.Base36, PointFields[0].width, PointFields[0].signed, records[k][0]);
        assert Numeral.InRange(Numeral.Base36, PointFields[1].width, PointFields[1].signed, records[k][1]);
      }
    }
  }

  /* ~~ print ~~~~~~~~~~~~~~~~~~~~~~~~~~~~~~~~~~~~~~~~~~~~~~~~~~~~~~~~~~~~~ */

  /** `Base36::toString<2,unsigned>` of a coordinate held in an `int`. */
  function Digits2(x: int): (s: string)
    ensures |s| == 2
  {
    Numeral.Base36Valid();
    Numeral.EncodeInt(Numeral.Base36, 2, false, Numeral.Int32Of(x))
  }

  /** The four digits of every point, in order. */
  function PointsText(points: seq<FlatPoint>): string {
    if points == [] then []
    else Digits2(points[0].x) + Digits2(points[0].y) + PointsText(points[1..])
  }

  /** What `print` writes: a space and the points' digits, for every
      stroke in order. */
  function Printed(strokes: seq<FlatStroke>): string {
    if strokes == [] then []
    else " " + PointsText(strokes[0].points) + Printed(strokes[1..])
  }

  lemma {:induction false} PointsTextSnoc(points: seq<FlatPoint>, p: FlatPoint)
    ensures PointsText(points + [p]) == PointsText(points) + (Digits2(p.x) + Digits2(p.y))
    decreases |points|
  {
    if points == [] {
      assert [p][1..] == [];
    } else {
      var q := points + [p];
      assert q[0] == points[0] && q[1..] == points[1..] + [p];
      PointsTextSnoc(points[1..], p);
      var h := Digits2(points[0].x) + Digits2(points[0].y);
      assert PointsText(q) == h + PointsText(q[1..]);
      assert PointsText(points) == h + PointsText(points[1..]);
      AppendAssoc(h, PointsText(points[1..]), Digits2(p.x) + Digits2(p.y));
    }
  }

  lemma {:induction false} PrintedSnoc(strokes: seq<FlatStroke>, s: FlatStroke)
    ensures Printed(strokes + [s]) == Printed(strokes) + (" " + PointsText(s.points))
    decreases |strokes|
  {
    if strokes == [] {
      assert [s][1..] == [];
    } else {
      assert (strokes + [s])[1..] == strokes[1..] + [s];
      PrintedSnoc(strokes[1..], s);
    }
  }

  /** `RawFormat::print`: for each stroke a space, then the two digits of
      `x` and of `y` of each point. */
  method Print(sketch: FlatSketch) returns (out: string)
    ensures out == Printed(sketch.strokes)
  {
    out := [];
    for i := 0 to |sketch.strokes|
      invariant out == Printed(sketch.strokes[..i])
    {
      var s := sketch.strokes[i];
      ghost var before := out;
      out := out + " ";
      for j := 0 to |s.points|
        invariant out == before + (" " + PointsText(s.points[..j]))
      {
        var p := s.points[j];
        var digits := Digits2(p.x) + Digits2(p.y);
        PointsTextSnoc(s.points[..j], p);
        TakeSnoc(s.points, j);
        AppendAssoc(before, " " + PointsText(s.points[..j]), digits);
        AppendAssoc(" ", PointsText(s.points[..j]), digits);
        out := out + digits;
      }
      TakeAll(s.points);
      PrintedSnoc(sketch.strokes[..i], s);
      TakeSnoc(sketch.strokes, i);
    }
    TakeAll(sketch.strokes);
  }

  /* ~~ Round trip ~~~~~~~~~~~~~~~~~~~~~~~~~~~~~~~~~~~~~~~~~~~~~~~~~~~~~~~ */

  /** Both coordinates of every point are two-digit unsigned values. */
  predicate Printable(points: seq<FlatPoint>) {
    forall k :: 0 <= k < |points| ==> 0 <= points[k].x < 1296 && 0 <= points[k].y < 1296
  }

  function RecordsOf(points: seq<FlatPoint>): (rs: seq<seq<int>>)
    ensures |rs| == |points|
  {
    seq(|points|, k requires 0 <= k < |points| => [points[k].x, points[k].y])
  }

  lemma Capacity2()
    ensures Numeral.Capacity(Numeral.Base36, 2) == 1296
  {
    Arith.PowSucc(36, 1);
    Arith.PowSucc(36, 0);
  }

  /** In range, a point's digits are its record's encoding. */
  lemma PointRecord(p: FlatPoint)
    requires 0 <= p.x < 1296 && 0 <= p.y < 1296
    ensures Numeral.Base36.Valid()
    ensures Numeral.RecordInRange(Numeral.Base36, PointFields, [p.x, p.y])
    ensures Digits2(p.x) + Digits2(p.y) == Numeral.EncodeRecord(Numeral.Base36, PointFields, [p.x, p.y])
  {
    Numeral.Base36Valid();
    Capacity2();
    Numeral.EncodeIntAgrees(Numeral.Base36, 2, false, p.x);
    Numeral.EncodeIntAgrees(Numeral.Base36, 2, false, p.y);
    var b, f, v := Numeral.Base36, PointFields, [p.x, p.y];
    assert f[1..][1..] == [] && v[1..][1..] == [];
    assert Numeral.EncodeRecord(b, f, v)
        == Numeral.Encode(b, 2, false, p.x) + (Numeral.Encode(b, 2, false, p.y) + []);
  }

  /** In range, the digits `print` writes for a stroke are the
      `parseTuples` encoding of its points. */
  lemma {:induction false} PointsTextRecords(points: seq<FlatPoint>)
    requires Printable(points)
    ensures Numeral.Base36.Valid()
    ensures forall k :: 0 <= k < |points| ==> Numeral.RecordInRange(Numeral.Base36, PointFields, RecordsOf(points)[k])
    ensures PointsText(points) == Numeral.EncodeTuples(Numeral.Base36, PointFields, RecordsOf(points))
    decreases |points|
  {
    RecordsInRange(points);
    if points != [] {
      var rs, p := RecordsOf(points), points[0];
      PointsTextRecords(points[1..]);
      PointRecord(p);
      assert rs[0] == [p.x, p.y];
      assert rs[1..] == RecordsOf(points[1..]);
    }
  }

  /** In range, every point's record fits its two-digit fields. */
  lemma RecordsInRange(points: seq<FlatPoint>)
    requires Printable(points)
    ensures Numeral.Base36.Valid()
    ensures forall k :: 0 <= k < |points| ==> Numeral.RecordInRange(Numeral.Base36, PointFields, RecordsOf(points)[k])
  {
    Numeral.Base36Valid();
    forall k | 0 <= k < |points|
      ensures Numeral.RecordInRange(Numeral.Base36, PointFields, RecordsOf(points)[k])
    {
      PointRecord(points[k]);
    }
  }

  /** Printed digits of in-range points decode to the same points. */
  lemma StrokeOfPrinted(s: FlatStroke)
    requires Printable(s.points)
    ensures StrokeOf(PointsText(s.points)) == Some(s)
  {
    var rs := RecordsOf(s.points);
    Numeral.Base36Valid();
    PointWidth();
    PointsTextRecords(s.points);
    Numeral.ParseTuplesEncode(Numeral.Base36, PointFields, rs);
    PointsOfRecords(s.points);
  }

  /** Reading the records of points back gives the points. */
  lemma PointsOfRecords(points: seq<FlatPoint>)
    ensures forall k :: 0 <= k < |RecordsOf(points)| ==> |RecordsOf(points)[k]| == 2
    ensures PointsOf(RecordsOf(points)) == points
  {
    var ps := PointsOf(RecordsOf(points));
    assert forall k :: 0 <= k < |points| ==> ps[k] == points[k];
  }

  /** The digits of in-range points are base-36 digits. */
  lemma {:induction false} PointsTextDigits(points: seq<FlatPoint>)
    requires Printable(points)
    ensures Numeral.AllDigits(Numeral.Base36, PointsText(points))
    decreases |points|
  {
    Numeral.Base36Valid();
    if points != [] {
      var p := points[0];
      PointRecord(p);
      Numeral.DecodeEncode(Numeral.Base36, 2, false, p.x);
      Numeral.DecodeEncode(Numeral.Base36, 2, false, p.y);
      Numeral.EncodeIntAgrees(Numeral.Base36, 2, false, p.x);
      Numeral.EncodeIntAgrees(Numeral.Base36, 2, false, p.y);
      PointsTextDigits(points[1..]);
      var x, y, rest := Digits2(p.x), Digits2(p.y), PointsText(points[1..]);
      assert Numeral.AllDigits(Numeral.Base36, x) && Numeral.AllDigits(Numeral.Base36, y);
      assert PointsText(points) == x + y + rest;
      forall i | 0 <= i < |x + y + rest|
        ensures Numeral.IsDigit(Numeral.Base36, (x + y + rest)[i])
      {
        if i < 2 {
          assert (x + y + rest)[i] == x[i];
        } else if i < 4 {
          assert (x + y + rest)[i] == y[i - 2];
        } else {
          assert (x + y + rest)[i] == rest[i - 4];
        }
      }
    }
  }

  /** A base-36 digit is not whitespace. */
  lemma DigitNotBlank(c: char)
    requires Numeral.IsDigit(Numeral.Base36, c)
    ensures !IsWhitespace(c)
  {
    var i := Numeral.IndexOf(Numeral.Base36.alphabet, c);
    Numeral.Base36Codes();
    assert c as int >= 48;
    CharClasses(c);
  }

  /** The words of a printed sketch whose strokes all have points are the
      strokes' digit strings, in order. */
  lemma {:induction false} WordsPrinted(strokes: seq<FlatStroke>)
    requires forall k :: 0 <= k < |strokes| ==> |strokes[k].points| >= 1 && Printable(strokes[k].points)
    ensures Words(Printed(strokes)) == seq(|strokes|, k requires 0 <= k < |strokes| => PointsText(strokes[k].points))
    decreases |strokes|
  {
    if strokes != [] {
      var w := PointsText(strokes[0].points);
      var rest := Printed(strokes[1..]);
      WordsPrinted(strokes[1..]);
      PointsTextBlankFree(strokes[0].points);
      if rest != [] {
        CharClasses(' ');
      }
      WordsCons(w, rest);
      AppendAssoc(" ", w, rest);
      WordsSpace(w + rest);
      StrokeTextsCons(strokes);
    }
  }

  /** The digit strings of the strokes: the first, then the rest's. */
  lemma StrokeTextsCons(strokes: seq<FlatStroke>)
    requires strokes != []
    ensures seq(|strokes|, k requires 0 <= k < |strokes| => PointsText(strokes[k].points))
         == [PointsText(strokes[0].points)] + seq(|strokes[1..]|, k requires 0 <= k < |strokes[1..]| => PointsText(strokes[1..][k].points))
  {
    var all := seq(|strokes|, k requires 0 <= k < |strokes| => PointsText(strokes[k].points));
    var tail := seq(|strokes[1..]|, k requires 0 <= k < |strokes[1..]| => PointsText(strokes[1..][k].points));
    var w := PointsText(strokes[0].points);
    forall k | 0 <= k < |tail|
      ensures all[k + 1] == tail[k]
    {
      assert strokes[1..][k] == strokes[k + 1];
    }
    HeadTail(all, w, tail);
  }

  /** A sequence is its first element before the rest. */
  lemma HeadTail(all: seq<string>, w: string, tail: seq<string>)
    requires |all| == |tail| + 1 && all[0] == w
    requires forall k :: 0 <= k < |tail| ==> all[k + 1] == tail[k]
    ensures all == [w] + tail
  {
    assert forall k :: 0 <= k < |all| ==> all[k] == ([w] + tail)[k];
  }

  /** The digits of a stroke with points: a non-empty word with no
      whitespace. */
  lemma PointsTextBlankFree(points: seq<FlatPoint>)
    requires |points| >= 1 && Printable(points)
    ensures |PointsText(points)| >= 1
    ensures forall m :: 0 <= m < |PointsText(points)| ==> !IsWhitespace(PointsText(points)[m])
  {
    var w := PointsText(points);
    PointsTextDigits(points);
    forall m | 0 <= m < |w|
      ensures !IsWhitespace(w[m])
    {
      DigitNotBlank(w[m]);
    }
  }

  /** Round trip of the raw format: parsing what `print` writes gives the
      sketch back, when every stroke has a point and every coordinate is
      in `[0, 1296)`. */
  lemma PrintParse(sketch: FlatSketch)
    requires forall k :: 0 <= k < |sketch.strokes| ==>
      |sketch.strokes[k].points| >= 1 && Printable(sketch.strokes[k].points)
    ensures RawRead(Unplaced(Words(Printed(sketch.strokes)))) == Ok(sketch)
  {
    var strokes := sketch.strokes;
    WordsPrinted(strokes);
    var tokens := Unplaced(Words(Printed(strokes)));
    forall k | 0 <= k < |tokens|
      ensures StrokeOf(tokens[k].text) == Some(strokes[k])
    {
      StrokeOfPrinted(strokes[k]);
    }
    RawReadResult(tokens);
    assert RawRead(tokens).value.strokes == strokes;
  }

  /** A stroke without points prints as a lone space and is lost: the
      text reads back as a sketch with no strokes. */
  lemma EmptyStrokeLost()
    ensures Printed([FlatStroke([])]) == " "
    ensures RawRead(Unplaced(Words(" "))) == Ok(FlatSketch([]))
  {
    assert [FlatStroke([])][1..] == [];
    WordsSpace("");
  }
}
