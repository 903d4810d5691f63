/**
 * The stream readers of src/parser_examples.cc, an earlier reading of the
 * raw format through `std::istream`. A stroke is read by skipping leading
 * whitespace (`std::ws`) and taking the characters up to the next space
 * (`std::getline` with `' '` as its delimiter); the word is accepted when
 * its length is a positive multiple of four and every character is a
 * lower-case base-36 digit, and each four digits make a point. A sketch is
 * read stroke by stroke until the first word that is not accepted. The
 * input stream is modelled as the text it has left.
 */
module ExampleReader {
  import opened Results
  import opened Util
  import opened Types
  import opened Document
  import Arith
  import Numeral
  import ParserBase
  import RawFormat
  import RawDraft

  /* ~~ Characters ~~~~~~~~~~~~~~~~~~~~~~~~~~~~~~~~~~~~~~~~~~~~~~~~~~~~~~ */

  /** `isWhitespace` of this file: a space or a tab. */
  predicate IsWhitespace(c: char) {
    c == ' ' || c == '\t'
  }

  /** `std::isspace` in the "C" locale: a space, or one of tab, line feed,
      vertical tab, form feed and carriage return (codes 9 to 13). */
  predicate IsSpace(c: char) {
    c == ' ' || 9 <= c as int <= 13
  }

  /** This file's whitespace is narrower than both the raw format's and the
      stream's: a line feed or carriage return is whitespace to those two
      but not here. */
  lemma WhitespaceNarrower(c: char)
    ensures IsWhitespace(c) ==> ParserBase.IsWhitespace(c) && IsSpace(c)
    ensures !IsWhitespace('\n') && ParserBase.IsWhitespace('\n') && IsSpace('\n')
  {
    ParserBase.CharClasses(c);
    ParserBase.CharClasses('\n');
  }

  /** `isBase36Digit`: a decimal digit or a lower-case letter. */
  predicate IsBase36Digit(c: char) {
    ('0' <= c <= '9') || ('a' <= c <= 'z')
  }

  /** `parseBase36Digit`: `c - '0'` for a decimal digit, otherwise
      `c - 'a' + 10`. */
  function ParseBase36Digit(c: char): int {
    if '0' <= c <= '9' then c as int - '0' as int else c as int - 'a' as int + 10
  }

  /** These two agree with the codec's base 36: the same digits, with the
      same values. */
  lemma DigitAgrees(c: char)
    ensures IsBase36Digit(c) <==> Numeral.IsDigit(Numeral.Base36, c)
    ensures IsBase36Digit(c) ==> ParseBase36Digit(c) == Numeral.DigitValue(Numeral.Base36, c)
  {
    var b := Numeral.Base36;
    Numeral.Base36Valid();
    Numeral.Base36Codes();
    if IsBase36Digit(c) {
      var i := ParseBase36Digit(c);
      assert 0 <= i < 36 && b.alphabet[i] == c;
      Numeral.DigitValueAt(b, i);
    }
    if Numeral.IsDigit(b, c) {
      Numeral.DigitValueOfDigit(b, c);
    }
  }

  /* ~~ What the readers return ~~~~~~~~~~~~~~~~~~~~~~~~~~~~~~~~~~~~~~~~~ */

  /** `is >> std::ws`: the text past the leading whitespace. */
  function SkipSpace(t: string): (u: string)
    ensures |u| <= |t| && u == t[|t| - |u|..]
    ensures u == [] || !IsSpace(u[0])
  {
    if t != [] && IsSpace(t[0]) then SkipSpace(t[1..]) else t
  }

  /** The length of the line `getline` extracts: up to the first space. */
  function LineLength(t: string): (k: nat)
    ensures k <= |t|
    ensures forall m :: 0 <= m < k ==> t[m] != ' '
    ensures k == |t| || t[k] == ' '
  {
    if t == [] || t[0] == ' ' then 0 else 1 + LineLength(t[1..])
  }

  predicate AllBase36(word: string) {
    forall m :: 0 <= m < |word| ==> IsBase36Digit(word[m])
  }

  /** The test of `operator>>(RawStroke)`: a positive multiple of four
      characters, all of them base-36 digits. */
  predicate Accepted(word: string) {
    |word| % 4 == 0 && |word| > 0 && AllBase36(word)
  }

  /** The points of a word, four digits each: `x = 36 d0 + d1` and
      `y = 36 d2 + d3`. The word has passed the test of `Accepted`, so the
      tail shorter than four digits is the empty one. */
  function WordPoints(word: string): seq<RawPoint>
    decreases |word|
  {
    if |word| < 4 then []
    else
      [RawPoint(36 * ParseBase36Digit(word[0]) + ParseBase36Digit(word[1]),
                36 * ParseBase36Digit(word[2]) + ParseBase36Digit(word[3]))]
      + WordPoints(word[4..])
  }

  /** The line `getline` takes from a stream standing at a non-space: the
      stroke it is read to and the text after the delimiter, or `None`
      when the test fails. */
  function LineRead(u: string): (r: Option<(seq<RawPoint>, string)>)
    ensures r.Some? ==> |r.value.1| < |u|
  {
    var k := LineLength(u);
    if Accepted(u[..k]) then
      Some((WordPoints(u[..k]), if k < |u| then u[k + 1..] else []))
    else None
  }

  /** `operator>>(istream&, RawStroke&)`: the stroke read and the text the
      stream has left after the delimiter, or `None` when the stream's
      fail bit is set. */
  function StrokeRead(t: string): (r: Option<(seq<RawPoint>, string)>)
    ensures r.Some? ==> |r.value.1| < |t|
  {
    LineRead(SkipSpace(t))
  }

  /** `operator>>(istream&, RawSketch&)`: the strokes read one after the
      other until the first read that fails. */
  function SketchRead(t: string): seq<seq<RawPoint>>
    decreases |t|
  {
    match StrokeRead(t)
    case None => []
    case Some((stroke, rest)) => [stroke] + SketchRead(rest)
  }

  /* ~~ The readers' loops ~~~~~~~~~~~~~~~~~~~~~~~~~~~~~~~~~~~~~~~~~~~~~~ */

  /** `is >> std::ws`, one character at a time. */
  method SkipSpaces(t: string) returns (a: nat)
    ensures a <= |t| && t[a..] == SkipSpace(t)
  {
    a := 0;
    ghost var skipped := SkipSpace(t);
    assert t[0..] == t;
    while a < |t| && IsSpace(t[a])
      invariant a <= |t| && SkipSpace(t[a..]) == skipped
    {
      assert t[a..][1..] == t[a + 1..];
      a := a + 1;
    }
  }

  /** `getline(is, line, ' ')`: the end of the line starting at `a`. */
  method LineEnd(t: string, a: nat) returns (e: nat)
    requires a <= |t|
    ensures a <= e <= |t| && e - a == LineLength(t[a..])
  {
    e := a;
    while e < |t| && t[e] != ' '
      invariant a <= e <= |t|
      invariant LineLength(t[a..]) == (e - a) + LineLength(t[e..])
    {
      assert t[e..][1..] == t[e + 1..];
      e := e + 1;
    }
  }

  /** The next four digits of a word make its next point. */
  lemma WordPointsStep(word: string, i: nat)
    requires i < |word| && |word[i..]| % 4 == 0
    ensures i + 4 <= |word| && |word[i + 4..]| % 4 == 0
    ensures WordPoints(word[i..]) ==
      [RawPoint(36 * ParseBase36Digit(word[i]) + ParseBase36Digit(word[i + 1]),
                36 * ParseBase36Digit(word[i + 2]) + ParseBase36Digit(word[i + 3]))]
      + WordPoints(word[i + 4..])
  {
    Arith.MultipleStep(|word[i..]|, 4);
    assert |word[i + 4..]| == |word[i..]| - 4;
    assert word[i..][4..] == word[i + 4..];
  }

  /** The point loop of `operator>>(RawStroke)`. */
  method PointsOfWord(word: string) returns (stroke: seq<RawPoint>)
    requires |word| % 4 == 0
    ensures stroke == WordPoints(word)
  {
    stroke := [];
    var i := 0;
    assert word[0..] == word;
    while i < |word|
      invariant i <= |word| && |word[i..]| % 4 == 0
      invariant WordPoints(word) == stroke + WordPoints(word[i..])
      decreases |word| - i
    {
      WordPointsStep(word, i);
      var p := RawPoint(36 * ParseBase36Digit(word[i + 0]) + ParseBase36Digit(word[i + 1]),
                        36 * ParseBase36Digit(word[i + 2]) + ParseBase36Digit(word[i + 3]));
      AppendAssoc(stroke, [p], WordPoints(word[i + 4..]));
      stroke := stroke + [p];
      i := i + 4;
    }
    assert word[i..] == [];
  }

  /** `operator>>(istream&, RawStroke&)`. */
  method ReadStroke(t: string) returns (ok: bool, stroke: seq<RawPoint>, rest: string)
    ensures ok <==> StrokeRead(t).Some?
    ensures ok ==> (stroke, rest) == StrokeRead(t).value
  {
    var a := SkipSpaces(t);
    ok, stroke, rest := ReadLine(t[a..]);
  }

  /** `getline` and the test of `operator>>(RawStroke)`, on a stream
      standing past its leading whitespace. */
  method ReadLine(u: string) returns (ok: bool, stroke: seq<RawPoint>, rest: string)
    ensures ok <==> LineRead(u).Some?
    ensures ok ==> (stroke, rest) == LineRead(u).value
  {
    var e := LineEnd(u, 0);
    var line := u[..e];
    var after := if e < |u| then u[e + 1..] else [];
    assert u[0..] == u;
    LineReadOf(u, line, after);
    if !Accepted(line) {
      return false, [], [];
    }
    stroke := PointsOfWord(line);
    rest := after;
    ok := true;
  }

  /** `LineRead` in terms of the line and of what follows its delimiter. */
  lemma LineReadOf(u: string, line: string, after: string)
    requires line == u[..LineLength(u)]
    requires after == if LineLength(u) < |u| then u[LineLength(u) + 1..] else []
    ensures LineRead(u) == if Accepted(line) then Some((WordPoints(line), after)) else None
  {
  }

  /** `operator>>(istream&, RawSketch&)`: clears the sketch, then reads
      strokes while the stream has not failed. */
  method ReadSketch(t: string) returns (sketch: seq<seq<RawPoint>>)
    ensures sketch == SketchRead(t)
  {
    sketch := [];
    var rest := t;
    while true
      invariant SketchRead(t) == sketch + SketchRead(rest)
      decreases |rest|
    {
      var ok, stroke, next := ReadStroke(rest);
      if !ok {
        break;
      }
      AppendAssoc(sketch, [stroke], SketchRead(next));
      sketch := sketch + [stroke];
      rest := next;
    }
    assert sketch + [] == sketch;
  }

  /* ~~ Agreement with the raw format ~~~~~~~~~~~~~~~~~~~~~~~~~~~~~~~~~~~ */

  /** Two characters are a coordinate for `parse<2,unsigned>` exactly when
      both are digits here, and then with the value `36 d0 + d1`. */
  lemma CoordinateAgrees(c: string)
    requires |c| == 2
    ensures RawDraft.Coordinate(c).Some? <==> IsBase36Digit(c[0]) && IsBase36Digit(c[1])
    ensures RawDraft.Coordinate(c).Some? ==>
      RawDraft.Coordinate(c).value == 36 * ParseBase36Digit(c[0]) + ParseBase36Digit(c[1])
  {
    var b := Numeral.Base36;
    DigitAgrees(c[0]);
    DigitAgrees(c[1]);
    if Numeral.AllDigits(b, c) {
      Numeral.FoldNext(b, c, 0);
      Numeral.FoldNext(b, c, 1);
      assert c[..0] == [] && c[..2] == c;
      assert Numeral.Decode(b, 2, false, c) == Ok(Numeral.Fold(b, c));
    } else {
      var i :| 0 <= i < |c| && !Numeral.IsDigit(b, c[i]);
      assert i == 0 || i == 1;
    }
  }

  /** Four characters make a point for the draft exactly when all four are
      digits here, and then the same point. */
  lemma ChunkAgrees(c: string)
    requires |c| == 4
    ensures RawDraft.ChunkPoint(c).Some? <==> AllBase36(c)
    ensures RawDraft.ChunkPoint(c).Some? ==>
      RawDraft.ChunkPoint(c).value == RawPoint(36 * ParseBase36Digit(c[0]) + ParseBase36Digit(c[1]),
                                               36 * ParseBase36Digit(c[2]) + ParseBase36Digit(c[3]))
  {
    var x, y := c[..2], c[2..];
    assert x[0] == c[0] && x[1] == c[1] && y[0] == c[2] && y[1] == c[3];
    CoordinateAgrees(x);
    CoordinateAgrees(y);
    assert AllBase36(c) <==> IsBase36Digit(c[0]) && IsBase36Digit(c[1]) && IsBase36Digit(c[2]) && IsBase36Digit(c[3]) by {
      if !AllBase36(c) {
        var m :| 0 <= m < 4 && !IsBase36Digit(c[m]);
        assert m == 0 || m == 1 || m == 2 || m == 3;
      }
    }
  }

  /** A word the draft reads as points is one whose characters are all
      digits here, and both read the same points. */
  lemma {:induction false} WordRun(word: string)
    requires |word| % 4 == 0
    ensures RawDraft.RunPoints(word).Ok? <==> AllBase36(word)
    ensures RawDraft.RunPoints(word).Ok? ==> RawDraft.RunPoints(word).value == WordPoints(word)
    decreases |word|
  {
    if word != [] {
      Arith.MultipleStep(|word|, 4);
      WordRun(word[4..]);
      WordRunStep(word);
    }
  }

  /** One group of `WordRun`: what holds of the rest of a word holds of
      the word. */
  lemma WordRunStep(word: string)
    requires |word| >= 4
    requires RawDraft.RunPoints(word[4..]).Ok? <==> AllBase36(word[4..])
    requires RawDraft.RunPoints(word[4..]).Ok? ==> RawDraft.RunPoints(word[4..]).value == WordPoints(word[4..])
    ensures RawDraft.RunPoints(word).Ok? <==> AllBase36(word)
    ensures RawDraft.RunPoints(word).Ok? ==> RawDraft.RunPoints(word).value == WordPoints(word)
  {
    FrontChunk(word);
    AllBase36Split(word, 4);
    RawDraft.RunPointsCons(word);
    if RawDraft.RunPoints(word).Ok? {
      WordPointsCons(word);
    }
  }

  /** `ChunkAgrees` for the first four characters of a word. */
  lemma FrontChunk(word: string)
    requires |word| >= 4
    ensures RawDraft.ChunkPoint(word[..4]).Some? <==> AllBase36(word[..4])
    ensures RawDraft.ChunkPoint(word[..4]).Some? ==>
      RawDraft.ChunkPoint(word[..4]).value == RawPoint(36 * ParseBase36Digit(word[0]) + ParseBase36Digit(word[1]),
                                                       36 * ParseBase36Digit(word[2]) + ParseBase36Digit(word[3]))
  {
    var c := word[..4];
    ChunkAgrees(c);
    assert RawPoint(36 * ParseBase36Digit(c[0]) + ParseBase36Digit(c[1]),
                    36 * ParseBase36Digit(c[2]) + ParseBase36Digit(c[3])) ==
           RawPoint(36 * ParseBase36Digit(word[0]) + ParseBase36Digit(word[1]),
                    36 * ParseBase36Digit(word[2]) + ParseBase36Digit(word[3]));
  }

  lemma WordPointsCons(word: string)
    requires |word| >= 4
    ensures WordPoints(word) ==
      [RawPoint(36 * ParseBase36Digit(word[0]) + ParseBase36Digit(word[1]),
                36 * ParseBase36Digit(word[2]) + ParseBase36Digit(word[3]))]
      + WordPoints(word[4..])
  {
  }

  lemma AllBase36Split(word: string, k: nat)
    requires k <= |word|
    ensures AllBase36(word) <==> AllBase36(word[..k]) && AllBase36(word[k..])
  {
    assert forall m :: 0 <= m < k ==> word[m] == word[..k][m];
    assert forall m :: k <= m < |word| ==> word[m] == word[k..][m - k];
  }

  /** The integer strokes of what the reader returns. */
  function Flat(sketch: seq<seq<RawPoint>>): (strokes: seq<FlatStroke>)
    ensures |strokes| == |sketch|
  {
    if sketch == [] then [] else [FlatStroke(RawDraft.FlatPoints(sketch[0]))] + Flat(sketch[1..])
  }

  /** Per word: a non-empty word is accepted here exactly when `rawParse`
      decodes it, and both read the same points. */
  lemma WordAgrees(word: string)
    ensures |word| > 0 ==> (Accepted(word) <==> RawFormat.StrokeOf(word).Some?)
    ensures Accepted(word) ==> RawFormat.StrokeOf(word).value == FlatStroke(RawDraft.FlatPoints(WordPoints(word)))
  {
    RawDraft.RunAgrees(word);
    if |word| % 4 == 0 {
      WordRun(word);
    }
  }

  /** Every coordinate a word is read to is in `[0, 1296)`, so it fits the
      `int16_t` of this file's `RawPoint`. */
  lemma {:induction false} WordPointsRange(word: string)
    requires |word| % 4 == 0 && AllBase36(word)
    ensures forall k :: 0 <= k < |WordPoints(word)| ==>
      0 <= WordPoints(word)[k].x < 1296 && 0 <= WordPoints(word)[k].y < 1296
    decreases |word|
  {
    if word != [] {
      Arith.MultipleStep(|word|, 4);
      assert AllBase36(word[4..]);
      WordPointsRange(word[4..]);
    }
  }

  /** Words written one after the other, each behind a space: the shape
      of what the raw format prints. */
  function Spaced(words: seq<string>): string {
    if words == [] then [] else " " + words[0] + Spaced(words[1..])
  }

  /** Whitespace in front does not change what the reader returns. */
  lemma SketchReadSpace(t: string)
    ensures SketchRead(" " + t) == SketchRead(t)
  {
    assert (" " + t)[1..] == t;
    assert SkipSpace(" " + t) == SkipSpace(t);
    assert StrokeRead(" " + t) == StrokeRead(t);
  }

  /** An accepted word behind a space is read as one stroke, and the
      stream is left at the space in front of the next word. */
  lemma StrokeReadWord(w: string, rest: string)
    requires Accepted(w)
    requires rest == [] || rest[0] == ' '
    ensures StrokeRead(" " + w + rest) == Some((WordPoints(w), if rest == [] then [] else rest[1..]))
  {
    var after := if rest == [] then [] else rest[1..];
    assert w[0] in w;
    SpacedLine(w, rest);
    LineReadOf(w + rest, w, after);
  }

  /** A word without spaces that does not start with whitespace, behind a
      space: the stream skips the space and `getline` takes the word. */
  lemma SpacedLine(w: string, rest: string)
    requires w != [] && !IsSpace(w[0]) && ' ' !in w
    requires rest == [] || rest[0] == ' '
    ensures SkipSpace(" " + w + rest) == w + rest
    ensures LineLength(w + rest) == |w| && (w + rest)[..|w|] == w
    ensures (if rest == [] then [] else rest[1..]) == if |w| < |w + rest| then (w + rest)[|w| + 1..] else []
  {
    var t, u := " " + w + rest, w + rest;
    assert t[1..] == u;
    assert LineLength(u) == |w| by {
      assert forall m :: 0 <= m < |w| ==> u[m] == w[m] && w[m] != ' ';
      assert |w| == |u| || u[|w|] == rest[0];
    }
    assert u[..|w|] == w;
    if rest != [] {
      assert u[|w| + 1..] == rest[1..];
    }
  }

  /** What the reader makes of accepted words: their points, in order. */
  function WordsPoints(words: seq<string>): (sketch: seq<seq<RawPoint>>)
    requires forall k :: 0 <= k < |words| ==> Accepted(words[k])
    ensures |sketch| == |words|
  {
    if words == [] then []
    else
      assert Accepted(words[0]);
      [WordPoints(words[0])] + WordsPoints(words[1..])
  }

  /** The reader reads accepted words written behind spaces back word by
      word. */
  lemma {:induction false} SpacedRead(words: seq<string>)
    requires forall k :: 0 <= k < |words| ==> Accepted(words[k])
    ensures SketchRead(Spaced(words)) == WordsPoints(words)
    decreases |words|
  {
    if words != [] {
      var w, rest := words[0], Spaced(words[1..]);
      assert rest == [] || rest[0] == ' ';
      StrokeReadWord(w, rest);
      assert Spaced(words) == " " + w + rest;
      var next := if rest == [] then [] else rest[1..];
      assert SketchRead(Spaced(words)) == [WordPoints(w)] + SketchRead(next);
      if rest != [] {
        assert rest == " " + next;
        SketchReadSpace(next);
      }
      SpacedRead(words[1..]);
    }
  }

  /** The raw format's tokenizer splits the same text into the same words. */
  lemma {:induction false} SpacedWords(words: seq<string>)
    requires forall k :: 0 <= k < |words| ==> Accepted(words[k])
    ensures RawFormat.Words(Spaced(words)) == words
    decreases |words|
  {
    if words != [] {
      var w, rest := words[0], Spaced(words[1..]);
      SpacedWords(words[1..]);
      assert Accepted(w);
      SpacedWord(w, rest);
      AppendAssoc(" ", w, rest);
    }
  }

  /** One digit word behind a space, in front of the spaced words after
      it. */
  lemma SpacedWord(w: string, rest: string)
    requires w != [] && AllBase36(w)
    requires rest == [] || rest[0] == ' '
    ensures RawFormat.Words(" " + (w + rest)) == [w] + RawFormat.Words(rest)
  {
    forall m | 0 <= m < |w|
      ensures !ParserBase.IsWhitespace(w[m])
    {
      ParserBase.CharClasses(w[m]);
    }
    ParserBase.CharClasses(' ');
    RawFormat.WordsCons(w, rest);
    RawFormat.WordsSpace(w + rest);
  }

  /** On accepted words written behind spaces, this reader and
      `RawFormat::parse` agree: the raw format splits the text into the
      same words, decodes every one of them, and reads the same strokes. */
  lemma ReaderAgrees(words: seq<string>)
    requires forall k :: 0 <= k < |words| ==> Accepted(words[k])
    ensures RawFormat.Words(Spaced(words)) == words
    ensures RawFormat.RawRead(RawFormat.Unplaced(words)) == Ok(FlatSketch(Flat(SketchRead(Spaced(words)))))
  {
    SpacedWords(words);
    SpacedRead(words);
    var tokens := RawFormat.Unplaced(words);
    var sketch := WordsPoints(words);
    forall k | 0 <= k < |words|
      ensures RawFormat.StrokeOf(tokens[k].text) == Some(FlatStroke(RawDraft.FlatPoints(sketch[k])))
    {
      WordsPointsAt(words, k);
      WordAgrees(words[k]);
    }
    ReadOk(tokens, sketch);
  }

  lemma {:induction false} WordsPointsAt(words: seq<string>, k: nat)
    requires forall k :: 0 <= k < |words| ==> Accepted(words[k])
    requires k < |words|
    ensures WordsPoints(words)[k] == WordPoints(words[k])
    decreases k
  {
    if k > 0 {
      WordsPointsAt(words[1..], k - 1);
    }
  }

  /** `rawParse` of tokens that all decode, to the strokes given. */
  lemma {:induction false} ReadOk(tokens: seq<ParserBase.Token>, sketch: seq<seq<RawPoint>>)
    requires |tokens| == |sketch|
    requires forall k :: 0 <= k < |tokens| ==>
      RawFormat.StrokeOf(tokens[k].text) == Some(FlatStroke(RawDraft.FlatPoints(sketch[k])))
    ensures RawFormat.RawRead(tokens) == Ok(FlatSketch(Flat(sketch)))
    decreases |tokens|
  {
    if tokens != [] {
      ReadOk(tokens[1..], sketch[1..]);
    }
  }
}
