/**
 * `SketchFormat` of src/parsers.hh and src/parsers.cc: the recursive-descent
 * parser over the tokens of the current tokenizer.
 *
 * The source passes token spans, views into the one token vector, and
 * sometimes dereferences a span's end iterator: it then reads the token
 * that follows the span in the vector, which within an element is always
 * the "," or ";" after it. Each span parser here takes the span's tokens
 * and that following token, `follow`.
 */
module SketchFormat {
  import opened Results
  import opened Util
  import opened ParserBase
  import opened Document
  import Types
  import Arith
  import Numeral
  import Lexer
  import RawFormat

  /* ~~ Spans ~~~~~~~~~~~~~~~~~~~~~~~~~~~~~~~~~~~~~~~~~~~~~~~~~~~~~~~~~~~~ */

  /** `*it` for an iterator `i` into a span: a token of the span, or the
      following token when `i` is the span's end. */
  function At(tokens: seq<Token>, follow: Token, i: nat): Token {
    if i < |tokens| then tokens[i] else follow
  }

  /** `isStringLiteral`: at least two characters, '(' first, ')' last. */
  predicate IsStringLiteral(t: Token) {
    |t.text| >= 2 && t.text[0] == '(' && t.text[|t.text| - 1] == ')'
  }

  /** What the parsers need of the token after a span: reading it where a
      bracket group is expected finds neither a string literal nor "[".
      The "," and ";" that end every element qualify. */
  predicate EndsSpan(follow: Token) {
    !IsStringLiteral(follow) && follow.text != "["
  }

  /* ~~ parenParse ~~~~~~~~~~~~~~~~~~~~~~~~~~~~~~~~~~~~~~~~~~~~~~~~~~~~~~~~ */

  datatype Side = Left | Right

  /** `Paren`: the index of a bracket type and the side of the token. */
  datatype Paren = Paren(id: nat, side: Side)

  /** `parenTypes`: the one bracket type, "[" with "]". */
  const ParenTypes: seq<(string, string)> := [("[", "]")]

  /** The bracket type of a token, searched from entry `i` of the table. */
  function ParenTypeFrom(t: Token, i: nat): (p: Option<Paren>)
    ensures p.Some? ==> p.value.id < |ParenTypes|
    decreases |ParenTypes| - i
  {
    if i >= |ParenTypes| then None
    else if t.text == ParenTypes[i].0 then Some(Paren(i, Left))
    else if t.text == ParenTypes[i].1 then Some(Paren(i, Right))
    else ParenTypeFrom(t, i + 1)
  }

  /** "[" opens and "]" closes the one bracket type; nothing else is a
      bracket. */
  lemma ParenKinds(t: Token)
    ensures ParenTypeFrom(t, 0) == (if t.text == "[" then Some(Paren(0, Left))
                                   else if t.text == "]" then Some(Paren(0, Right))
                                   else None)
  {
    assert ParenTypes[0] == ("[", "]");
  }

  /** The `parenTypeOf` lambda: a search through `parenTypes`. */
  method ParenTypeOf(t: Token) returns (p: Option<Paren>)
    ensures p == ParenTypeFrom(t, 0)
  {
    for i := 0 to |ParenTypes|
      invariant ParenTypeFrom(t, 0) == ParenTypeFrom(t, i)
    {
      var (left, right) := ParenTypes[i];
      if t.text == left {
        return Some(Paren(i, Left));
      }
      if t.text == right {
        return Some(Paren(i, Right));
      }
    }
    return None;
  }

  /** The nesting change of one token. */
  function Nest(t: Token): int {
    if t.text == "[" then 1 else if t.text == "]" then -1 else 0
  }

  /** The scan for the "]" that brings the nesting `depth` to zero, from
      token `j` on: the index just past it, or none. */
  function Close(tokens: seq<Token>, j: nat, depth: nat): (e: Option<nat>)
    requires depth >= 1
    ensures e.Some? ==> j < e.value <= |tokens|
    decreases |tokens| - j
  {
    if j >= |tokens| then None
    else
      var d := depth + Nest(tokens[j]);
      if d == 0 then Some(j + 1) else Close(tokens, j + 1, d)
  }

  /** What `parenParse(tokens, it)` returns and where it leaves `it`: a
      string literal alone; otherwise, from a "[", the tokens strictly
      between it and its matching "]" with `it` just past that "]"; or
      the error. */
  function Group(tokens: seq<Token>, follow: Token, i: nat): (g: (Result<seq<Token>, ParseError>, nat))
    requires i <= |tokens| && EndsSpan(follow)
    ensures g.0.Ok? ==> i < g.1 <= |tokens|
  {
    var t := At(tokens, follow, i);
    if IsStringLiteral(t) then (Ok([t]), i + 1)
    else if t.text != "[" then (Err(Locate(Raise(MissingBracketLeft), t.pos)), i)
    else
      match Close(tokens, i + 1, 1)
      case Some(e) => (Ok(tokens[i + 1..e - 1]), e)
      case None => (Err(Locate(Raise(MissingBracketRight), tokens[|tokens| - 1].pos)), |tokens|)
  }

  /** `parenParse`: a string literal is a group by itself; otherwise the
      token must open a bracket, and a stack of the open brackets is kept
      until it empties or the span ends. */
  method ParenParse(tokens: seq<Token>, follow: Token, it0: nat) returns (r: Result<seq<Token>, ParseError>, it: nat)
    requires it0 <= |tokens| && EndsSpan(follow)
    ensures (r, it) == Group(tokens, follow, it0)
  {
    it := it0;
    var t := At(tokens, follow, it);
    if IsStringLiteral(t) {
      return Ok([t]), it + 1;
    }
    var p := ParenTypeOf(t);
    ParenKinds(t);
    if p.None? || p.value.side != Left {
      return Err(Locate(Raise(MissingBracketLeft), t.pos)), it;
    }
    var start := it;
    // The first pass of the do-while loop: the opening "[" itself.
    var stack: seq<nat> := [p.value.id];
    it := it + 1;
    while |stack| > 0 && it != |tokens|
      invariant start < it <= |tokens|
      invariant forall k :: 0 <= k < |stack| ==> stack[k] == 0
      invariant Close(tokens, start + 1, 1) == if |stack| == 0 then Some(it) else Close(tokens, it, |stack|)
      decreases |tokens| - it
    {
      var q := ParenTypeOf(tokens[it]);
      ParenKinds(tokens[it]);
      it := it + 1;
      if q.Some? {
        if q.value.side == Left {
          stack := stack + [q.value.id];
        }
        if q.value.side == Right {
          // One bracket type only: the `MismatchingParens` test never fires.
          assert q.value.id == stack[|stack| - 1];
          stack := stack[..|stack| - 1];
        }
      }
    }
    if |stack| == 0 {
      return Ok(tokens[start + 1..it - 1]), it;
    }
    return Err(Locate(Raise(MissingBracketRight), tokens[|tokens| - 1].pos)), it;
  }

  /** The nesting of `tokens[from..k]`: opened minus closed brackets. */
  function Depth(tokens: seq<Token>, from: nat, k: nat): int
    requires k <= |tokens|
    decreases k
  {
    if k <= from then 0 else Depth(tokens, from, k - 1) + Nest(tokens[k - 1])
  }

  /** Balanced brackets: nesting zero overall and never below zero. */
  predicate Balanced(ts: seq<Token>) {
    Depth(ts, 0, |ts|) == 0 && forall k :: 0 <= k <= |ts| ==> Depth(ts, 0, k) >= 0
  }

  /** The nesting of a slice is the nesting of the same tokens in place. */
  lemma {:induction false} DepthSlice(tokens: seq<Token>, a: nat, b: nat, k: nat)
    requires a <= b <= |tokens| && k <= b - a
    ensures Depth(tokens[a..b], 0, k) == Depth(tokens, a, a + k)
    decreases k
  {
    if k > 0 {
      DepthSlice(tokens, a, b, k - 1);
    }
  }

  /** The scan from `j` at `depth` ends just past the first token where the
      nesting counted from `from` falls to -1, and finds none when it never
      does. */
  lemma {:induction false} CloseDepth(tokens: seq<Token>, from: nat, j: nat, depth: nat)
    requires from <= j <= |tokens| && depth >= 1
    requires Depth(tokens, from, j) == depth - 1
    requires forall k :: from <= k <= j ==> Depth(tokens, from, k) >= 0
    ensures Close(tokens, j, depth).Some? ==>
      var e := Close(tokens, j, depth).value;
      Depth(tokens, from, e) == -1 && tokens[e - 1].text == "]" &&
      forall k :: from <= k < e ==> Depth(tokens, from, k) >= 0
    ensures Close(tokens, j, depth).None? ==>
      forall k :: from <= k <= |tokens| ==> Depth(tokens, from, k) >= 0
    decreases |tokens| - j
  {
    if j < |tokens| {
      var d := depth + Nest(tokens[j]);
      assert Depth(tokens, from, j + 1) == d - 1;
      if d != 0 {
        CloseDepth(tokens, from, j + 1, d);
      }
    }
  }

  /** Counting from one token further on takes that token's nesting off. */
  lemma {:induction false} DepthFront(tokens: seq<Token>, from: nat, k: nat)
    requires from < k <= |tokens|
    ensures Depth(tokens, from, k) == Nest(tokens[from]) + Depth(tokens, from + 1, k)
    decreases k
  {
    if k > from + 1 {
      DepthFront(tokens, from, k - 1);
    }
  }

  /** `parenParse` from a "[": on success the group is the balanced run of
      tokens strictly between the "[" and the first "]" that brings the
      nesting counted from the "[" back to zero, and `it` is left just past
      that "]"; `MissingBracketRight` at the span's last token exactly when
      the nesting never comes back to zero. */
  lemma GroupBracket(tokens: seq<Token>, follow: Token, i: nat)
    requires i < |tokens| && EndsSpan(follow) && tokens[i].text == "["
    ensures var (r, e) := Group(tokens, follow, i);
      (r.Ok? ==>
        (i + 1 < e <= |tokens| && tokens[e - 1].text == "]" &&
         r.value == tokens[i + 1..e - 1] && Balanced(r.value) &&
         Depth(tokens, i, e) == 0 &&
         forall k :: i < k < e ==> Depth(tokens, i, k) >= 1)) &&
      (r.Err? ==>
        (r.error == ParseError(MissingBracketRight, tokens[|tokens| - 1].pos) &&
         forall k :: i < k <= |tokens| ==> Depth(tokens, i, k) >= 1))
  {
    assert !IsStringLiteral(tokens[i]);
    CloseDepth(tokens, i + 1, i + 1, 1);
    forall k | i < k <= |tokens|
      ensures Depth(tokens, i, k) == 1 + Depth(tokens, i + 1, k)
    {
      DepthFront(tokens, i, k);
    }
    var (r, e) := Group(tokens, follow, i);
    if r.Ok? {
      var g := r.value;
      forall k | 0 <= k <= |g|
        ensures Depth(g, 0, k) == Depth(tokens, i + 1, i + 1 + k)
      {
        DepthSlice(tokens, i + 1, e - 1, k);
      }
      assert Depth(tokens, i + 1, e) == Depth(tokens, i + 1, e - 1) - 1;
    }
  }

  /** The other cases of `parenParse`: a string literal is returned alone
      with `it` one past it; any other token that is not "[" gives
      `MissingBracketLeft` at that token and leaves `it` where it was. */
  lemma GroupOther(tokens: seq<Token>, follow: Token, i: nat)
    requires i <= |tokens| && EndsSpan(follow)
    ensures var t := At(tokens, follow, i);
      (IsStringLiteral(t) ==> Group(tokens, follow, i) == (Ok([t]), i + 1)) &&
      (!IsStringLiteral(t) && t.text != "[" ==>
        Group(tokens, follow, i) == (Err(ParseError(MissingBracketLeft, t.pos)), i))
  {
  }

  /* ~~ removeTicks ~~~~~~~~~~~~~~~~~~~~~~~~~~~~~~~~~~~~~~~~~~~~~~~~~~~~~~~ */

  const Tick: char := '\''

  /** `Util::toLower`, taken to lower-case ASCII letters only. */
  function ToLower(c: char): char {
    if 'A' <= c <= 'Z' then (c as int + 32) as char else c
  }

  /** `result.contains("''")`. */
  predicate DoubleTick(s: string) {
    exists k :: 0 <= k < |s| - 1 && s[k] == Tick && s[k + 1] == Tick
  }

  /** The `views::filter(isNotTick) | views::transform(toLower)` pipeline. */
  function Untick(s: string): (r: string)
    ensures |r| <= |s|
    ensures forall k :: 0 <= k < |r| ==> r[k] != Tick
  {
    if s == [] then []
    else (if s[0] == Tick then [] else [ToLower(s[0])]) + Untick(s[1..])
  }

  /** `removeTicks`: a tick first, last or doubled is `TickmarkOrdering`;
      otherwise the text without its ticks, lower-cased. */
  function RemoveTicks(s: string): Result<string, ParseError> {
    if s != [] && (s[0] == Tick || s[|s| - 1] == Tick || DoubleTick(s)) then Err(Raise(TickmarkOrdering))
    else Ok(Untick(s))
  }

  lemma UntickAppend(a: string, b: string)
    ensures Untick(a + b) == Untick(a) + Untick(b)
    decreases |a|
  {
    if a == [] {
      assert a + b == b;
    } else {
      assert (a + b)[1..] == a[1..] + b;
      UntickAppend(a[1..], b);
    }
  }

  /** A text with no tick and no upper-case letter goes through unchanged. */
  lemma {:induction false} UntickPlain(s: string)
    requires forall k :: 0 <= k < |s| ==> s[k] != Tick && !('A' <= s[k] <= 'Z')
    ensures Untick(s) == s
    decreases |s|
  {
    if s != [] {
      UntickPlain(s[1..]);
      assert s == [s[0]] + s[1..];
    }
  }

  /** Tick-separated groups of plain characters. */
  function JoinTicks(groups: seq<string>): string {
    if groups == [] then []
    else if |groups| == 1 then groups[0]
    else groups[0] + [Tick] + JoinTicks(groups[1..])
  }

  function Concat(groups: seq<string>): string {
    if groups == [] then [] else groups[0] + Concat(groups[1..])
  }

  /** Non-empty tick-free lower-case groups joined by ticks: the first and
      last characters are no tick and no two ticks are adjacent. */
  lemma {:induction false} JoinTicksShape(groups: seq<string>)
    requires forall i :: 0 <= i < |groups| ==> (|groups[i]| >= 1 &&
      forall k :: 0 <= k < |groups[i]| ==> groups[i][k] != Tick)
    ensures var s := JoinTicks(groups);
      (s != [] ==> s[0] != Tick && s[|s| - 1] != Tick) && !DoubleTick(s)
    ensures groups != [] ==> |JoinTicks(groups)| >= 1
    decreases |groups|
  {
    if |groups| > 1 {
      JoinTicksShape(groups[1..]);
      var g, rest := groups[0], JoinTicks(groups[1..]);
      var s := g + [Tick] + rest;
      assert s == JoinTicks(groups);
      forall k | 0 <= k < |s| - 1
        ensures !(s[k] == Tick && s[k + 1] == Tick)
      {
        if k < |g| {
          assert s[k] == g[k];
        } else if k == |g| {
          assert s[k + 1] == rest[0];
        } else {
          assert s[k] == rest[k - |g| - 1] && s[k + 1] == rest[k - |g|];
        }
      }
    }
  }

  /** `removeTicks` undoes the tick separators: joined groups of plain
      characters come back concatenated. */
  lemma {:induction false} RemoveTicksJoin(groups: seq<string>)
    requires forall i :: 0 <= i < |groups| ==> (|groups[i]| >= 1 &&
      forall k :: 0 <= k < |groups[i]| ==> groups[i][k] != Tick && !('A' <= groups[i][k] <= 'Z'))
    ensures RemoveTicks(JoinTicks(groups)) == Ok(Concat(groups))
  {
    JoinTicksShape(groups);
    UntickJoin(groups);
  }

  lemma {:induction false} UntickJoin(groups: seq<string>)
    requires forall i :: 0 <= i < |groups| ==>
      forall k :: 0 <= k < |groups[i]| ==> groups[i][k] != Tick && !('A' <= groups[i][k] <= 'Z')
    ensures Untick(JoinTicks(groups)) == Concat(groups)
    decreases |groups|
  {
    if groups != [] {
      UntickPlain(groups[0]);
      if |groups| == 1 {
        assert Concat(groups) == groups[0] + Concat([]);
      } else {
        var g, rest := groups[0], JoinTicks(groups[1..]);
        UntickJoin(groups[1..]);
        assert JoinTicks(groups) == (g + [Tick]) + rest;
        UntickAppend(g + [Tick], rest);
        UntickAppend(g, [Tick]);
        assert Untick([Tick]) == [];
        assert Untick(g + [Tick]) == g;
        assert Concat(groups) == g + Concat(groups[1..]);
      }
    }
  }

  /** The cases of `removeTicks`: the error exactly for a tick first, last
      or doubled; otherwise no tick is left, every other character is kept
      in order, lower-cased. */
  lemma RemoveTicksCases(s: string)
    ensures RemoveTicks(s).Err? <==> s != [] && (s[0] == Tick || s[|s| - 1] == Tick || DoubleTick(s))
    ensures RemoveTicks(s).Err? ==> RemoveTicks(s).error == ParseError(TickmarkOrdering, Unknown)
    ensures RemoveTicks(s).Ok? ==> forall k :: 0 <= k < |RemoveTicks(s).value| ==> RemoveTicks(s).value[k] != Tick
  {
  }

  /** Without ticks, `removeTicks` only lower-cases. */
  lemma {:induction false} UntickNoTicks(s: string)
    requires forall k :: 0 <= k < |s| ==> s[k] != Tick
    ensures |Untick(s)| == |s| && forall k :: 0 <= k < |s| ==> Untick(s)[k] == ToLower(s[k])
    decreases |s|
  {
    if s != [] {
      UntickNoTicks(s[1..]);
    }
  }

  /* ~~ Atom parsers ~~~~~~~~~~~~~~~~~~~~~~~~~~~~~~~~~~~~~~~~~~~~~~~~~~~~~~ */

  /** The widths of the base-36 fields the atoms use. */
  lemma Widths()
    ensures Numeral.Base36.Valid()
    ensures Numeral.Capacity(Numeral.Base36, 2) == 1296
    ensures Numeral.Capacity(Numeral.Base36, 3) == 46656
    ensures Numeral.Rollover(Numeral.Base36, 3) == 23328
  {
    Numeral.Base36Valid();
    Arith.PowSucc(36, 2);
    Arith.PowSucc(36, 1);
    Arith.PowSucc(36, 0);
  }

  /** A brush point: `x` and `y` of three signed digits, the pressure of
      two unsigned digits. */
  const BrushFields: seq<Numeral.Field> := [Numeral.Field(3, true), Numeral.Field(3, true), Numeral.Field(2, false)]

  /** A data point: `x` and `y` of three signed digits. */
  const DataFields: seq<Numeral.Field> := [Numeral.Field(3, true), Numeral.Field(3, true)]

  lemma FieldWidths()
    ensures Numeral.RecordWidth(BrushFields) == 8
    ensures Numeral.RecordWidth(DataFields) == 6
  {
    assert BrushFields[1..][1..][1..] == [];
    assert DataFields[1..][1..] == [];
  }

  /** A coordinate of three signed base-36 digits. */
  predicate Coordinate(x: int) {
    -23328 <= x < 23328
  }

  /** The records of a successful `parseTuples` over `fields`, each in range. */
  lemma TupleRanges(fields: seq<Numeral.Field>, text: string)
    requires Numeral.RecordWidth(fields) > 0
    ensures Numeral.Base36.Valid()
    ensures Numeral.ParseTuples(Numeral.Base36, fields, text).Ok? ==>
      var rs := Numeral.ParseTuples(Numeral.Base36, fields, text).value;
      forall k :: 0 <= k < |rs| ==> Numeral.RecordInRange(Numeral.Base36, fields, rs[k])
  {
    Numeral.Base36Valid();
    Numeral.ParseTuplesShape(Numeral.Base36, fields, text);
  }

  /** `atomStrokeBrushParse`: two tokens, the diameter of two unsigned
      digits and the tick-separated points, `(x, y, p)` with the pressure
      `p / 1295`. */
  function AtomStrokeBrushParse(ts: seq<Token>): (r: Result<BrushStroke, ParseError>)
    ensures |ts| != 2 ==> r == Err(Raise(AtomSize))
    ensures r.Ok? ==> (r.value.diameter < 1296 &&
      forall k :: 0 <= k < |r.value.points| ==>
        Coordinate(r.value.points[k].x) && Coordinate(r.value.points[k].y) &&
        0.0 <= r.value.points[k].pressure <= 1.0)
  {
    Widths();
    FieldWidths();
    if |ts| != 2 then Err(Raise(AtomSize))
    else
      match Numeral.Decode(Numeral.Base36, 2, false, ts[0].text)
      case Err(_) => Err(Locate(Raise(ForeignDigit), ts[0].pos))
      case Ok(d) =>
        Numeral.DecodeInRange(Numeral.Base36, 2, false, ts[0].text);
        match RemoveTicks(ts[1].text)
        case Err(e) => Err(Locate(e, ts[1].pos))
        case Ok(text) =>
          match Numeral.ParseTuples(Numeral.Base36, BrushFields, text)
          case Err(_) => Err(Locate(Raise(MalformedNumberTuple), ts[1].pos))
          case Ok(rs) =>
            TupleRanges(BrushFields, text);
            Ok(BrushStroke(d, BrushPointsOf(rs)))
  }

  /** The point of one decoded `(x, y, p)` record. */
  function BrushPointOf(r: seq<int>): (p: BrushPoint)
    requires Numeral.RecordInRange(Numeral.Base36, BrushFields, r)
    ensures Coordinate(p.x) && Coordinate(p.y) && 0.0 <= p.pressure <= 1.0
  {
    Widths();
    assert Numeral.InRange(Numeral.Base36, BrushFields[0].width, BrushFields[0].signed, r[0]);
    assert Numeral.InRange(Numeral.Base36, BrushFields[1].width, BrushFields[1].signed, r[1]);
    assert Numeral.InRange(Numeral.Base36, BrushFields[2].width, BrushFields[2].signed, r[2]);
    BrushPoint(r[0], r[1], r[2] as real / 1295.0)
  }

  function BrushPointsOf(rs: seq<seq<int>>): (ps: seq<BrushPoint>)
    requires forall k :: 0 <= k < |rs| ==> Numeral.RecordInRange(Numeral.Base36, BrushFields, rs[k])
    ensures |ps| == |rs|
    ensures forall k :: 0 <= k < |rs| ==> Coordinate(ps[k].x) && Coordinate(ps[k].y) && 0.0 <= ps[k].pressure <= 1.0
  {
    seq(|rs|, k requires 0 <= k < |rs| => BrushPointOf(rs[k]))
  }

  /** `atomStrokeDataParse`: one token of tick-separated `(x, y)` points. */
  function AtomStrokeDataParse(ts: seq<Token>): (r: Result<FlatStroke, ParseError>)
    ensures |ts| != 1 ==> r == Err(Raise(AtomSize))
    ensures r.Ok? ==> forall k :: 0 <= k < |r.value.points| ==>
      Coordinate(r.value.points[k].x) && Coordinate(r.value.points[k].y)
  {
    Widths();
    FieldWidths();
    if |ts| != 1 then Err(Raise(AtomSize))
    else
      match RemoveTicks(ts[0].text)
      case Err(e) => Err(Locate(e, ts[0].pos))
      case Ok(text) =>
        match Numeral.ParseTuples(Numeral.Base36, DataFields, text)
        case Err(_) => Err(Locate(Raise(MalformedNumberTuple), ts[0].pos))
        case Ok(rs) =>
          TupleRanges(DataFields, text);
          Ok(FlatStroke(DataPointsOf(rs)))
  }

  /** The point of one decoded `(x, y)` record. */
  function DataPointOf(r: seq<int>): (p: FlatPoint)
    requires Numeral.RecordInRange(Numeral.Base36, DataFields, r)
    ensures |r| == 2 && p == FlatPoint(r[0], r[1])
    ensures Coordinate(p.x) && Coordinate(p.y)
  {
    Widths();
    assert Numeral.InRange(Numeral.Base36, DataFields[0].width, DataFields[0].signed, r[0]);
    assert Numeral.InRange(Numeral.Base36, DataFields[1].width, DataFields[1].signed, r[1]);
    FlatPoint(r[0], r[1])
  }

  function DataPointsOf(rs: seq<seq<int>>): (ps: seq<FlatPoint>)
    requires forall k :: 0 <= k < |rs| ==> Numeral.RecordInRange(Numeral.Base36, DataFields, rs[k])
    ensures |ps| == |rs|
    ensures forall k :: 0 <= k < |rs| ==> ps[k] == DataPointOf(rs[k])
  {
    seq(|rs|, k requires 0 <= k < |rs| => DataPointOf(rs[k]))
  }

  /** `atomStrokeRawParse`: one token of tick-separated points in the raw
      format's encoding, two unsigned digits per coordinate. */
  function AtomStrokeRawParse(ts: seq<Token>): (r: Result<FlatStroke, ParseError>)
    ensures |ts| != 1 ==> r == Err(Raise(AtomSize))
    ensures r.Ok? ==> forall k :: 0 <= k < |r.value.points| ==>
      0 <= r.value.points[k].x < 1296 && 0 <= r.value.points[k].y < 1296
  {
    if |ts| != 1 then Err(Raise(AtomSize))
    else
      match RemoveTicks(ts[0].text)
      case Err(e) => Err(Locate(e, ts[0].pos))
      case Ok(text) =>
        RawFormat.StrokeOfRange(text);
        match RawFormat.StrokeOf(text)
        case None => Err(Locate(Raise(MalformedNumberTuple), ts[0].pos))
        case Some(stroke) => Ok(stroke)
  }

  /** `atomMarkerParse`: one string literal; the marker is its text inside
      the parentheses. */
  function AtomMarkerParse(ts: seq<Token>): (r: Result<Types.Marker, ParseError>)
    ensures |ts| != 1 ==> r == Err(Raise(AtomSize))
    ensures r.Ok? <==> |ts| == 1 && IsStringLiteral(ts[0])
    ensures r.Ok? ==> ts[0].text == "(" + r.value.text + ")"
  {
    if |ts| != 1 then Err(Raise(AtomSize))
    else if !IsStringLiteral(ts[0]) then Err(Locate(Raise(MissingString), ts[0].pos))
    else
      var t := ts[0].text;
      assert t == [t[0]] + t[1..|t| - 1] + [t[|t| - 1]];
      Ok(Types.Marker(t[1..|t| - 1]))
  }

  /* ~~ Modifier parsers ~~~~~~~~~~~~~~~~~~~~~~~~~~~~~~~~~~~~~~~~~~~~~~~~~~ */

  /** A list read so far, in front of the rest's result. */
  function Prefixed<T>(xs: seq<T>, r: Result<seq<T>, ParseError>): Result<seq<T>, ParseError> {
    match r
    case Ok(ys) => Ok(xs + ys)
    case Err(e) => Err(e)
  }

  lemma PrefixedNil<T>(r: Result<seq<T>, ParseError>)
    ensures Prefixed([], r) == r
  {
    if r.Ok? {
      assert [] + r.value == r.value;
    }
  }

  lemma PrefixedSnoc<T>(xs: seq<T>, x: T, r: Result<seq<T>, ParseError>)
    ensures Prefixed(xs + [x], r) == Prefixed(xs, Prefixed([x], r))
  {
    if r.Ok? {
      Util.AppendAssoc(xs, [x], r.value);
    }
  }

  /** The matrix entries of `modAffineParse` from entry `i` on: each token
      read by `read` (the decimal reader), the first failure located at its
      token. */
  function Entries(read: string -> Result<real, ParseError>, ts: seq<Token>, i: nat): (r: Result<seq<real>, ParseError>)
    requires i <= |ts|
    ensures r.Ok? ==> |r.value| == |ts| - i
    decreases |ts| - i
  {
    if i == |ts| then Ok([])
    else
      match read(ts[i].text)
      case Err(e) => Err(Locate(e, ts[i].pos))
      case Ok(x) => Prefixed([x], Entries(read, ts, i + 1))
  }

  /** The entries succeed exactly when every token from `i` on is a decimal,
      and then the entry for token `k` is its value. */
  lemma {:induction false} EntriesParsed(read: string -> Result<real, ParseError>, ts: seq<Token>, i: nat)
    requires i <= |ts|
    ensures Entries(read, ts, i).Ok? <==> forall k :: i <= k < |ts| ==> read(ts[k].text).Ok?
    ensures Entries(read, ts, i).Ok? ==>
      forall k :: i <= k < |ts| ==> read(ts[k].text) == Ok(Entries(read, ts, i).value[k - i])
    decreases |ts| - i
  {
    if i < |ts| {
      EntriesParsed(read, ts, i + 1);
      var r := Entries(read, ts, i);
      if r.Ok? {
        var x := read(ts[i].text).value;
        var rest := Entries(read, ts, i + 1).value;
        assert r.value == [x] + rest;
        forall k | i < k < |ts|
          ensures read(ts[k].text) == Ok(r.value[k - i])
        {
          assert r.value[k - i] == rest[k - (i + 1)];
        }
      }
    }
  }

  /** A failed run of entries reports the first token that is not a
      decimal, at that token. */
  lemma {:induction false} EntriesFailed(read: string -> Result<real, ParseError>, ts: seq<Token>, i: nat)
    requires i <= |ts|
    ensures Entries(read, ts, i).Err? ==>
      exists k :: i <= k < |ts| && FirstBadEntry(read, ts, i, k) &&
        Entries(read, ts, i).error == Locate(read(ts[k].text).error, ts[k].pos)
    decreases |ts| - i
  {
    if i < |ts| && Entries(read, ts, i).Err? {
      if read(ts[i].text).Err? {
        assert FirstBadEntry(read, ts, i, i);
      } else {
        EntriesFailed(read, ts, i + 1);
        var k :| i + 1 <= k < |ts| && FirstBadEntry(read, ts, i + 1, k) &&
          Entries(read, ts, i + 1).error == Locate(read(ts[k].text).error, ts[k].pos);
        assert FirstBadEntry(read, ts, i, k);
      }
    }
  }

  /** Token `k` is the first from `i` on that is not a decimal. */
  predicate FirstBadEntry(read: string -> Result<real, ParseError>, ts: seq<Token>, i: nat, k: nat)
    requires i <= k < |ts|
  {
    read(ts[k].text).Err? && forall j :: i <= j < k ==> read(ts[j].text).Ok?
  }

  /** What `modAffineParse` returns: nine entries, else `ModAffineSize`. */
  function AffineRead(ts: seq<Token>): (r: Result<Types.StrokeMod, ParseError>)
    ensures |ts| != 9 ==> r == Err(Raise(ModAffineSize))
    ensures r.Ok? ==> r.value.AffineMod? && |ts| == 9
  {
    if |ts| != 9 then Err(Raise(ModAffineSize))
    else
      match Entries(FloatParseStrict, ts, 0)
      case Err(e) => Err(e)
      case Ok(m) => Ok(Types.AffineMod(Types.Affine(m)))
  }

  /** Nine decimals make an affine modifier holding their values in order;
      with nine tokens, the first that is not a decimal is the error. */
  lemma AffineReadEntries(ts: seq<Token>)
    ensures AffineRead(ts).Ok? <==> |ts| == 9 && forall k :: 0 <= k < 9 ==> FloatParseStrict(ts[k].text).Ok?
    ensures AffineRead(ts).Ok? ==>
      forall k :: 0 <= k < 9 ==> FloatParseStrict(ts[k].text) == Ok(AffineRead(ts).value.affine.m[k])
    ensures |ts| == 9 && AffineRead(ts).Err? ==>
      exists k :: 0 <= k < 9 && FirstBadEntry(FloatParseStrict, ts, 0, k) &&
        AffineRead(ts).error == Locate(FloatParseStrict(ts[k].text).error, ts[k].pos)
  {
    if |ts| == 9 {
      EntriesParsed(FloatParseStrict, ts, 0);
      EntriesFailed(FloatParseStrict, ts, 0);
      var r := Entries(FloatParseStrict, ts, 0);
      if r.Ok? {
        forall k | 0 <= k < 9
          ensures FloatParseStrict(ts[k].text) == Ok(AffineRead(ts).value.affine.m[k])
        {
          assert r.value[k - 0] == AffineRead(ts).value.affine.m[k];
        }
      }
    }
  }

  /** `modAffineParse`: the nine entries read in turn into the matrix. */
  method ModAffineParse(ts: seq<Token>) returns (r: Result<Types.StrokeMod, ParseError>)
    ensures r == AffineRead(ts)
  {
    if |ts| != 9 {
      return Err(Raise(ModAffineSize));
    }
    var matrix := new real[9];
    PrefixedNil(Entries(FloatParseStrict, ts, 0));
    for i := 0 to 9
      invariant Entries(FloatParseStrict, ts, 0) == Prefixed(matrix[..i], Entries(FloatParseStrict, ts, i))
    {
      var number := FloatParseStrict(ts[i].text);
      if number.Err? {
        assert matrix[..i] + [] == matrix[..i];
        return Err(Locate(number.error, ts[i].pos));
      }
      PrefixedSnoc(matrix[..i], number.value, Entries(FloatParseStrict, ts, i + 1));
      matrix[i] := number.value;
      assert matrix[..i + 1] == matrix[..i] + [number.value];
    }
    assert matrix[..9] + [] == matrix[..];
    return Ok(Types.AffineMod(Types.Affine(matrix[..])));
  }

  /** `modArrayParse`: thirteen tokens, the count, then `Affine [` nine
      entries `]`. */
  function ModArrayParse(ts: seq<Token>): (r: Result<Types.StrokeMod, ParseError>)
    ensures |ts| != 13 ==> r == Err(Raise(ModArraySize))
    ensures (|ts| == 13 && IntegerParse(Numeral.SizeT, ts[0].text).Ok? &&
             (ts[1].text != "Affine" || ts[2].text != "[" || ts[12].text != "]")) ==>
      r == Err(ParseError(MalformedModArray, ts[0].pos))
    ensures r.Ok? ==> (r.value.ArrayMod? && |ts| == 13 &&
      ts[1].text == "Affine" && ts[2].text == "[" && ts[12].text == "]" &&
      IntegerParse(Numeral.SizeT, ts[0].text) == Ok(r.value.n) &&
      AffineRead(ts[3..12]) == Ok(Types.AffineMod(r.value.transformation)))
    ensures (|ts| == 13 && IntegerParse(Numeral.SizeT, ts[0].text).Ok? &&
             ts[1].text == "Affine" && ts[2].text == "[" && ts[12].text == "]" &&
             AffineRead(ts[3..12]).Ok?) ==> r.Ok?
  {
    if |ts| != 13 then Err(Raise(ModArraySize))
    else
      match IntegerParse(Numeral.SizeT, ts[0].text)
      case Err(e) => Err(Locate(e, ts[0].pos))
      case Ok(n) =>
        if ts[1].text != "Affine" || ts[2].text != "[" || ts[12].text != "]" then
          Err(Locate(Raise(MalformedModArray), ts[0].pos))
        else
          match AffineRead(ts[3..12])
          case Err(e) => Err(Locate(e, ts[1].pos))
          case Ok(a) => Ok(Types.ArrayMod(n, a.affine))
  }

  /** `modUppercaseParse`: empty contents, else `ModUppercaseSize`. */
  function ModUppercaseParse(ts: seq<Token>): (r: Result<Types.MarkerMod, ParseError>)
    ensures r.Ok? <==> ts == []
    ensures r.Err? ==> r.error == ParseError(ModUppercaseSize, Unknown)
  {
    if |ts| != 0 then Err(Raise(ModUppercaseSize)) else Ok(Types.Uppercase)
  }

  /** What `modsStrokeParse` returns for the modifiers from `i` on: each an
      `Affine` or `Array` word and its group. */
  function StrokeModsRead(tokens: seq<Token>, follow: Token, i: nat): Result<seq<Types.StrokeMod>, ParseError>
    requires i <= |tokens| && EndsSpan(follow)
    decreases |tokens| - i
  {
    if i == |tokens| then Ok([])
    else
      var t := tokens[i];
      if t.text != "Affine" && t.text != "Array" then Err(Locate(Raise(UnknownModifierType), t.pos))
      else
        var (g, next) := Group(tokens, follow, i + 1);
        match g
        case Err(e) => Err(Locate(e, At(tokens, follow, next).pos))
        case Ok(contents) =>
          match (if t.text == "Affine" then AffineRead(contents) else ModArrayParse(contents))
          case Err(e) => Err(Locate(e, At(tokens, follow, next).pos))
          case Ok(m) => Prefixed([m], StrokeModsRead(tokens, follow, next))
  }

  /** `modsStrokeParse`: the modifiers one after another to the span's end. */
  method ModsStrokeParse(tokens: seq<Token>, follow: Token) returns (r: Result<seq<Types.StrokeMod>, ParseError>)
    requires EndsSpan(follow)
    ensures r == StrokeModsRead(tokens, follow, 0)
  {
    var result: seq<Types.StrokeMod> := [];
    var it := 0;
    PrefixedNil(StrokeModsRead(tokens, follow, 0));
    while it != |tokens|
      invariant it <= |tokens|
      invariant StrokeModsRead(tokens, follow, 0) == Prefixed(result, StrokeModsRead(tokens, follow, it))
      decreases |tokens| - it
    {
      var t := tokens[it];
      if t.text != "Affine" && t.text != "Array" {
        return Err(Locate(Raise(UnknownModifierType), t.pos));
      }
      var contents;
      contents, it := ParenParse(tokens, follow, it + 1);
      if contents.Err? {
        return Err(Locate(contents.error, At(tokens, follow, it).pos));
      }
      var modifier;
      if t.text == "Affine" {
        modifier := ModAffineParse(contents.value);
      } else {
        modifier := ModArrayParse(contents.value);
      }
      if modifier.Err? {
        return Err(Locate(modifier.error, At(tokens, follow, it).pos));
      }
      PrefixedSnoc(result, modifier.value, StrokeModsRead(tokens, follow, it));
      result := result + [modifier.value];
    }
    assert result + [] == result;
    return Ok(result);
  }

  /** What `modsMarkerParse` returns for the modifiers from `i` on: each an
      `Uppercase` word and its group. */
  function MarkerModsRead(tokens: seq<Token>, follow: Token, i: nat): Result<seq<Types.MarkerMod>, ParseError>
    requires i <= |tokens| && EndsSpan(follow)
    decreases |tokens| - i
  {
    if i == |tokens| then Ok([])
    else
      var t := tokens[i];
      if t.text != "Uppercase" then Err(Locate(Raise(UnknownModifierType), t.pos))
      else
        var (g, next) := Group(tokens, follow, i + 1);
        match g
        case Err(e) => Err(Locate(e, At(tokens, follow, next).pos))
        case Ok(contents) =>
          match ModUppercaseParse(contents)
          case Err(e) => Err(Locate(e, At(tokens, follow, next).pos))
          case Ok(m) => Prefixed([m], MarkerModsRead(tokens, follow, next))
  }

  /** `modsMarkerParse`: the marker modifiers one after another. */
  method ModsMarkerParse(tokens: seq<Token>, follow: Token) returns (r: Result<seq<Types.MarkerMod>, ParseError>)
    requires EndsSpan(follow)
    ensures r == MarkerModsRead(tokens, follow, 0)
  {
    var result: seq<Types.MarkerMod> := [];
    var it := 0;
    PrefixedNil(MarkerModsRead(tokens, follow, 0));
    while it != |tokens|
      invariant it <= |tokens|
      invariant MarkerModsRead(tokens, follow, 0) == Prefixed(result, MarkerModsRead(tokens, follow, it))
      decreases |tokens| - it
    {
      var t := tokens[it];
      if t.text != "Uppercase" {
        return Err(Locate(Raise(UnknownModifierType), t.pos));
      }
      var contents;
      contents, it := ParenParse(tokens, follow, it + 1);
      if contents.Err? {
        return Err(Locate(contents.error, At(tokens, follow, it).pos));
      }
      var modifier := ModUppercaseParse(contents.value);
      if modifier.Err? {
        return Err(Locate(modifier.error, At(tokens, follow, it).pos));
      }
      PrefixedSnoc(result, modifier.value, MarkerModsRead(tokens, follow, it));
      result := result + [modifier.value];
    }
    assert result + [] == result;
    return Ok(result);
  }

  /* ~~ parseStroke ~~~~~~~~~~~~~~~~~~~~~~~~~~~~~~~~~~~~~~~~~~~~~~~~~~~~~~~ */

  /** The `n` tokens an atom parser is given from index `j` on, cut short
      at the end of `src`. */
  function Window(src: seq<Token>, j: nat, n: nat): (w: seq<Token>)
    ensures j + n <= |src| ==> w == src[j..j + n]
  {
    var a := if j <= |src| then j else |src|;
    var b := if j + n <= |src| then j + n else |src|;
    src[a..b]
  }

  /** The atoms read in groups of `n` from index `j` of `src` until `end`;
      the first failing atom's error is the result. */
  function AtomsFrom<A>(src: seq<Token>, j: nat, end: nat, n: nat, atom: seq<Token> -> Result<A, ParseError>): Result<seq<A>, ParseError>
    requires n >= 1
    decreases if j <= end then end - j else 0
  {
    if j >= end then Ok([])
    else
      match atom(Window(src, j, n))
      case Err(e) => Err(e)
      case Ok(a) => Prefixed([a], AtomsFrom(src, j + n, end, n, atom))
  }

  /** `parseStroke<Element_t, n>` over an element's span; `wholeSpan`
      chooses which size the `ElementBrushSize` test checks, the whole span
      as written or the bracket contents. */
  function StrokeWith<A>(n: nat, atom: seq<Token> -> Result<A, ParseError>, tokens: seq<Token>, follow: Token, wholeSpan: bool): Result<(seq<A>, seq<Types.StrokeMod>), ParseError>
    requires n >= 1 && EndsSpan(follow)
  {
    if tokens == [] then Err(Raise(EmptyElement))
    else if tokens[0].text != "[" then Err(Raise(MissingBracketLeft))
    else
      var (g, next) := Group(tokens, follow, 0);
      match g
      case Err(e) => Err(Locate(e, At(tokens, follow, next).pos))
      case Ok(contents) =>
        if (if wholeSpan then |tokens| else |contents|) % n != 0 then Err(Raise(ElementBrushSize))
        else
          var atoms :- if wholeSpan then AtomsFrom(tokens, 1, 1 + |contents|, n, atom)
                       else AtomsFrom(contents, 0, |contents|, n, atom);
          var mods :- StrokeModsRead(tokens[next..], follow, 0);
          Ok((atoms, mods))
  }

  /** `parseStroke` as written: the size test is on the whole span, the
      bracket group and the modifiers after it together. */
  function ParseStrokeAsWritten<A>(n: nat, atom: seq<Token> -> Result<A, ParseError>, tokens: seq<Token>, follow: Token): (r: Result<(seq<A>, seq<Types.StrokeMod>), ParseError>)
    requires n >= 1 && EndsSpan(follow)
    ensures tokens != [] && tokens[0].text == "[" && Group(tokens, follow, 0).0.Ok? && |tokens| % n != 0 ==>
      r == Err(Raise(ElementBrushSize))
  {
    StrokeWith(n, atom, tokens, follow, true)
  }

  /** `parseStroke` with the size test on the bracket contents, which the
      atom loop steps through. */
  function StrokeElement<A>(n: nat, atom: seq<Token> -> Result<A, ParseError>, tokens: seq<Token>, follow: Token): Result<(seq<A>, seq<Types.StrokeMod>), ParseError>
    requires n >= 1 && EndsSpan(follow)
  {
    StrokeWith(n, atom, tokens, follow, false)
  }

  /** `parseStroke`: the bracket group, its atoms `n` tokens at a time,
      then the stroke modifiers after the group. */
  method ParseStroke<A>(n: nat, atom: seq<Token> -> Result<A, ParseError>, tokens: seq<Token>, follow: Token) returns (r: Result<(seq<A>, seq<Types.StrokeMod>), ParseError>)
    requires n >= 1 && EndsSpan(follow)
    ensures r == StrokeElement(n, atom, tokens, follow)
  {
    if tokens == [] {
      return Err(Raise(EmptyElement));
    }
    if tokens[0].text != "[" {
      return Err(Raise(MissingBracketLeft));
    }
    var contents, it := ParenParse(tokens, follow, 0);
    if contents.Err? {
      return Err(Locate(contents.error, At(tokens, follow, it).pos));
    }
    var c := contents.value;
    var strokes: seq<A> := [];
    if |c| % n != 0 {
      return Err(Raise(ElementBrushSize));
    }
    var jt := 0;
    PrefixedNil(AtomsFrom(c, 0, |c|, n, atom));
    while jt != |c|
      invariant jt <= |c| && (|c| - jt) % n == 0
      invariant AtomsFrom(c, 0, |c|, n, atom) == Prefixed(strokes, AtomsFrom(c, jt, |c|, n, atom))
      decreases |c| - jt
    {
      StepDown(|c| - jt, n);
      var stroke := atom(c[jt..jt + n]);
      if stroke.Err? {
        return Err(stroke.error);
      }
      PrefixedSnoc(strokes, stroke.value, AtomsFrom(c, jt + n, |c|, n, atom));
      strokes := strokes + [stroke.value];
      jt := jt + n;
    }
    assert strokes + [] == strokes;
    var modifiers := ModsStrokeParse(tokens[it..], follow);
    if modifiers.Err? {
      return Err(modifiers.error);
    }
    return Ok((strokes, modifiers.value));
  }

  /** A positive multiple of `n` holds at least one more `n`. */
  lemma StepDown(x: nat, n: nat)
    requires n >= 1 && x > 0 && x % n == 0
    ensures x >= n && (x - n) % n == 0
  {
    Arith.DivMod(x, n);
    var q := x / n;
    if x < n {
      Arith.DivModUnique(x, n, 0, x);
    }
    Arith.Distribute(n, q, -1);
    Arith.DivModUnique(x - n, n, q - 1, 0);
  }

  /** The contents cut into consecutive runs of `n` tokens, the last one
      shorter when `n` does not divide the length. */
  function Chunks(src: seq<Token>, n: nat): seq<seq<Token>>
    requires n >= 1
    decreases |src|
  {
    if src == [] then []
    else if |src| <= n then [src]
    else [src[..n]] + Chunks(src[n..], n)
  }

  function Flatten(groups: seq<seq<Token>>): seq<Token> {
    if groups == [] then [] else groups[0] + Flatten(groups[1..])
  }

  /** When `n` divides the length, the chunks are runs of exactly `n`
      tokens that together make up the contents, in order. */
  lemma {:induction false} ChunksShape(src: seq<Token>, n: nat)
    requires n >= 1 && |src| % n == 0
    ensures Flatten(Chunks(src, n)) == src
    ensures |Chunks(src, n)| * n == |src|
    ensures forall k :: 0 <= k < |Chunks(src, n)| ==> |Chunks(src, n)[k]| == n
    decreases |src|
  {
    if src != [] {
      StepDown(|src|, n);
      if |src| > n {
        ChunksShape(src[n..], n);
        assert src == src[..n] + src[n..];
        Arith.MulSucc(|Chunks(src[n..], n)|, n);
      }
    }
  }

  /** Each chunk through the atom parser in turn, stopping at the first
      failure. */
  function MapAll<A>(atom: seq<Token> -> Result<A, ParseError>, xs: seq<seq<Token>>): Result<seq<A>, ParseError> {
    if xs == [] then Ok([])
    else
      match atom(xs[0])
      case Err(e) => Err(e)
      case Ok(a) => Prefixed([a], MapAll(atom, xs[1..]))
  }

  /** All chunks parse exactly when the whole does, each atom the parse of
      its chunk; otherwise the error is that of the first failing chunk. */
  lemma {:induction false} MapAllCases<A>(atom: seq<Token> -> Result<A, ParseError>, xs: seq<seq<Token>>)
    ensures MapAll(atom, xs).Ok? <==> forall k :: 0 <= k < |xs| ==> atom(xs[k]).Ok?
    ensures MapAll(atom, xs).Ok? ==> (|MapAll(atom, xs).value| == |xs| &&
      forall k :: 0 <= k < |xs| ==> atom(xs[k]) == Ok(MapAll(atom, xs).value[k]))
    ensures MapAll(atom, xs).Err? ==> exists k :: (0 <= k < |xs| &&
      atom(xs[k]) == Err(MapAll(atom, xs).error) && forall j :: 0 <= j < k ==> atom(xs[j]).Ok?)
    decreases |xs|
  {
    if xs != [] {
      MapAllCases(atom, xs[1..]);
      if atom(xs[0]).Ok? && MapAll(atom, xs[1..]).Err? {
        var k :| 0 <= k < |xs[1..]| && atom(xs[1..][k]) == Err(MapAll(atom, xs[1..]).error) &&
          forall j :: 0 <= j < k ==> atom(xs[1..][j]).Ok?;
        assert atom(xs[k + 1]) == Err(MapAll(atom, xs).error);
        forall j | 0 <= j < k + 1
          ensures atom(xs[j]).Ok?
        {
          if j > 0 {
            assert xs[j] == xs[1..][j - 1];
          }
        }
      }
      if atom(xs[0]).Err? {
        assert atom(xs[0]) == Err(MapAll(atom, xs).error);
      }
    }
  }

  /** The atom loop over contents of a multiple of `n` tokens is the atom
      parser over their chunks. */
  lemma {:induction false} AtomsChunks<A>(src: seq<Token>, j: nat, n: nat, atom: seq<Token> -> Result<A, ParseError>)
    requires n >= 1 && j <= |src| && (|src| - j) % n == 0
    ensures AtomsFrom(src, j, |src|, n, atom) == MapAll(atom, Chunks(src[j..], n))
    decreases |src| - j
  {
    if j < |src| {
      StepDown(|src| - j, n);
      assert Window(src, j, n) == src[j..][..n];
      if |src| - j > n {
        AtomsChunks(src, j + n, n, atom);
        assert src[j..][n..] == src[j + n..];
      } else {
        assert src[j..j + n] == src[j..];
        assert Window(src, j, n) == src[j..];
        assert AtomsFrom(src, j + n, |src|, n, atom) == Ok([]);
        assert Chunks(src[j..], n) == [src[j..]];
        assert [src[j..]][1..] == [];
        assert MapAll(atom, []) == Ok([]);
      }
    }
  }

  /** Reading the atoms in place in the element's span, from just after
      its "[", is reading them from the contents, while no group runs past
      the contents' end. */
  lemma {:induction false} AtomsInPlace<A>(tokens: seq<Token>, c: seq<Token>, j: nat, n: nat, atom: seq<Token> -> Result<A, ParseError>)
    requires n >= 1 && 1 + |c| <= |tokens| && tokens[1..1 + |c|] == c
    requires j <= |c| && (|c| - j) % n == 0
    ensures AtomsFrom(tokens, 1 + j, 1 + |c|, n, atom) == AtomsFrom(c, j, |c|, n, atom)
    decreases |c| - j
  {
    if j < |c| {
      StepDown(|c| - j, n);
      var x, y := c[j..j + n], tokens[1 + j..1 + j + n];
      assert |x| == |y| && forall k :: 0 <= k < |x| ==> x[k] == y[k];
      assert Window(tokens, 1 + j, n) == Window(c, j, n);
      AtomsInPlace(tokens, c, j + n, n, atom);
    }
  }

  /** The cases of `parseStroke`: `EmptyElement`, `MissingBracketLeft`
      without a position, the bracket error, `ElementBrushSize` for
      contents that are not whole atoms, and otherwise the atoms of the
      contents' chunks followed by the modifiers after the "]". */
  lemma StrokeElementCases<A>(n: nat, atom: seq<Token> -> Result<A, ParseError>, tokens: seq<Token>, follow: Token)
    requires n >= 1 && EndsSpan(follow)
    ensures var r := StrokeElement(n, atom, tokens, follow);
      (tokens == [] ==> r == Err(Raise(EmptyElement))) &&
      (tokens != [] && tokens[0].text != "[" ==> r == Err(Raise(MissingBracketLeft))) &&
      (tokens != [] && tokens[0].text == "[" ==>
        var (g, next) := Group(tokens, follow, 0);
        (g.Err? ==> r == Err(Locate(ParseError(MissingBracketRight, tokens[|tokens| - 1].pos), follow.pos))) &&
        (g.Ok? && |g.value| % n != 0 ==> r == Err(Raise(ElementBrushSize))) &&
        (g.Ok? && |g.value| % n == 0 ==>
          r == (var atoms :- MapAll(atom, Chunks(g.value, n));
                var mods :- StrokeModsRead(tokens[next..], follow, 0);
                Ok((atoms, mods)))))
  {
    if tokens != [] && tokens[0].text == "[" {
      GroupBracket(tokens, follow, 0);
      var (g, next) := Group(tokens, follow, 0);
      if g.Ok? && |g.value| % n == 0 {
        AtomsChunks(g.value, 0, n, atom);
        assert g.value[0..] == g.value;
      }
    }
  }

  /** A parsed stroke element holds exactly `|contents| / n` atoms, the
      parses of consecutive runs of `n` content tokens in order, and the
      modifiers parsed from the tokens after the matching "]". */
  lemma StrokeElementOk<A>(n: nat, atom: seq<Token> -> Result<A, ParseError>, tokens: seq<Token>, follow: Token)
    requires n >= 1 && EndsSpan(follow) && StrokeElement(n, atom, tokens, follow).Ok?
    ensures tokens != [] && tokens[0].text == "["
    ensures var (g, next) := Group(tokens, follow, 0);
      var (atoms, mods) := StrokeElement(n, atom, tokens, follow).value;
      var chunks := Chunks(g.value, n);
      g.Ok? && g.value == tokens[1..next - 1] && tokens[next - 1].text == "]" &&
      |atoms| * n == |g.value| && |chunks| == |atoms| && Flatten(chunks) == g.value &&
      (forall k :: 0 <= k < |atoms| ==> |chunks[k]| == n && atom(chunks[k]) == Ok(atoms[k])) &&
      StrokeModsRead(tokens[next..], follow, 0) == Ok(mods)
  {
    StrokeElementCases(n, atom, tokens, follow);
    GroupBracket(tokens, follow, 0);
    var (g, next) := Group(tokens, follow, 0);
    ChunksShape(g.value, n);
    MapAllCases(atom, Chunks(g.value, n));
  }

  /** A modifier group of nine or thirteen tokens is bracketed, so the
      modifier with its word spans twelve or sixteen tokens. */
  lemma ModifierSpan(tokens: seq<Token>, follow: Token, i: nat)
    requires i < |tokens| && EndsSpan(follow)
    requires Group(tokens, follow, i + 1).0.Ok?
    requires |Group(tokens, follow, i + 1).0.value| == 9 || |Group(tokens, follow, i + 1).0.value| == 13
    ensures Group(tokens, follow, i + 1).1 == i + 12 || Group(tokens, follow, i + 1).1 == i + 16
  {
    GroupOther(tokens, follow, i + 1);
    if i + 1 < |tokens| && tokens[i + 1].text == "[" {
      GroupBracket(tokens, follow, i + 1);
    }
  }

  lemma EvenStep(a: int, b: int)
    requires b % 2 == 0 && (a == b + 12 || a == b + 16)
    ensures a % 2 == 0
  {
  }

  lemma OddStep(a: int, b: int)
    requires a % 2 != 0 && b == a - 2
    ensures b % 2 != 0
  {
  }

  /** A successful run of stroke modifiers spans an even number of tokens:
      `Affine [` nine entries `]` is twelve, `Array [` thirteen `]`
      sixteen. */
  lemma {:induction false} StrokeModsEven(tokens: seq<Token>, follow: Token, i: nat)
    requires i <= |tokens| && EndsSpan(follow)
    ensures StrokeModsRead(tokens, follow, i).Ok? ==> (|tokens| - i) % 2 == 0
    decreases |tokens| - i
  {
    if i < |tokens| && StrokeModsRead(tokens, follow, i).Ok? {
      var t := tokens[i];
      var (g, next) := Group(tokens, follow, i + 1);
      assert g.Ok?;
      var m := if t.text == "Affine" then AffineRead(g.value) else ModArrayParse(g.value);
      assert m.Ok?;
      assert |g.value| == 9 || |g.value| == 13;
      ModifierSpan(tokens, follow, i);
      assert StrokeModsRead(tokens, follow, i) == Prefixed([m.value], StrokeModsRead(tokens, follow, next));
      StrokeModsEven(tokens, follow, next);
      EvenStep(|tokens| - i, |tokens| - next);
    }
  }

  /** A parsed stroke element has its bracket group and its modifiers. */
  lemma StrokeWithParts<A>(n: nat, atom: seq<Token> -> Result<A, ParseError>, tokens: seq<Token>, follow: Token, wholeSpan: bool)
    requires n >= 1 && EndsSpan(follow)
    ensures StrokeWith(n, atom, tokens, follow, wholeSpan).Ok? ==>
      tokens != [] && tokens[0].text == "[" && Group(tokens, follow, 0).0.Ok? &&
      StrokeModsRead(tokens[Group(tokens, follow, 0).1..], follow, 0).Ok?
  {
  }

  /** An element span whose stroke modifiers parse: "[", the contents, "]"
      and an even number of modifier tokens. */
  lemma SpanParity<A>(n: nat, atom: seq<Token> -> Result<A, ParseError>, tokens: seq<Token>, follow: Token, wholeSpan: bool)
    requires n >= 1 && EndsSpan(follow) && tokens != [] && tokens[0].text == "["
    requires Group(tokens, follow, 0).0.Ok?
    ensures var (g, next) := Group(tokens, follow, 0);
      next == |g.value| + 2 &&
      ((|tokens| - |g.value|) % 2 != 0 ==> StrokeWith(n, atom, tokens, follow, wholeSpan).Err?)
  {
    GroupBracket(tokens, follow, 0);
    var (g, next) := Group(tokens, follow, 0);
    assert g.value == tokens[1..next - 1];
    assert next == |g.value| + 2;
    if (|tokens| - |g.value|) % 2 != 0 {
      var rest := tokens[next..];
      assert |rest| == |tokens| - |g.value| - 2;
      OddStep(|tokens| - |g.value|, |rest|);
      StrokeModsEven(rest, follow, 0);
      StrokeWithParts(n, atom, tokens, follow, wholeSpan);
    }
  }

  /** When the span and the contents agree on divisibility by `n`, the
      two size tests agree and the atoms read in place are those of the
      contents. */
  lemma SameGuard<A>(n: nat, atom: seq<Token> -> Result<A, ParseError>, tokens: seq<Token>, follow: Token)
    requires n >= 1 && EndsSpan(follow) && tokens != [] && tokens[0].text == "["
    requires Group(tokens, follow, 0).0.Ok?
    requires |tokens| % n == 0 <==> |Group(tokens, follow, 0).0.value| % n == 0
    ensures StrokeWith(n, atom, tokens, follow, true) == StrokeWith(n, atom, tokens, follow, false)
  {
    GroupBracket(tokens, follow, 0);
    var c := Group(tokens, follow, 0).0.value;
    if |c| % n == 0 {
      AtomsInPlace(tokens, c, 0, n, atom);
      assert c[0..] == c;
    }
  }

  /** The whole-span size test only changes which error is reported: for
      one-token and two-token atoms, whenever either reading parses, both
      give the same element. */
  lemma ParseStrokeSameSuccess<A>(n: nat, atom: seq<Token> -> Result<A, ParseError>, tokens: seq<Token>, follow: Token)
    requires (n == 1 || n == 2) && EndsSpan(follow)
    ensures ParseStrokeAsWritten(n, atom, tokens, follow).Ok? || StrokeElement(n, atom, tokens, follow).Ok? ==>
      ParseStrokeAsWritten(n, atom, tokens, follow) == StrokeElement(n, atom, tokens, follow)
  {
    if tokens == [] || tokens[0].text != "[" || Group(tokens, follow, 0).0.Err? {
      assert StrokeWith(n, atom, tokens, follow, true) == StrokeWith(n, atom, tokens, follow, false);
    } else {
      var c := Group(tokens, follow, 0).0.value;
      SpanParity(n, atom, tokens, follow, true);
      SpanParity(n, atom, tokens, follow, false);
      if (|tokens| - |c|) % 2 == 0 {
        assert |tokens| % n == 0 <==> |c| % n == 0;
        SameGuard(n, atom, tokens, follow);
      }
    }
  }

  /** In a brush span the group that runs past odd contents ends with the
      "]", and no brush atom accepts a "]" as its points: the as-written
      loop never steps past the contents' end. */
  lemma BrushAtomRejectsClose(d: Token, close: Token)
    requires close.text == "]"
    ensures AtomStrokeBrushParse([d, close]).Err?
    ensures Numeral.Decode(Numeral.Base36, 2, false, d.text).Ok? ==>
      AtomStrokeBrushParse([d, close]) == Err(Locate(Raise(MalformedNumberTuple), close.pos))
  {
    FieldWidths();
    assert Untick("]") == "]";
    assert RemoveTicks(close.text) == Ok("]");
    assert Numeral.ParseTuples(Numeral.Base36, BrushFields, "]").Err?;
  }

  lemma DiameterTen()
    ensures Numeral.Decode(Numeral.Base36, 2, false, "10").Ok?
  {
    Numeral.Base36Codes();
    assert Numeral.Base36.alphabet[1] == '1' && Numeral.Base36.alphabet[0] == '0';
    assert Numeral.AllDigits(Numeral.Base36, "10");
  }

  /** The element span after "Brush" in "Brush [ 10 ] Affine [ ];". */
  predicate TenThenAffine(ts: seq<Token>) {
    |ts| == 6 && ts[0].text == "[" && ts[1].text == "10" && ts[2].text == "]" &&
    ts[3].text == "Affine" && ts[4].text == "[" && ts[5].text == "]"
  }

  /** As written: the span has six tokens, so the size test passes, and the
      "]" is read as the points of a second atom token. */
  lemma BrushSizeAsWritten(ts: seq<Token>, follow: Token)
    requires TenThenAffine(ts) && follow.text == ";"
    ensures EndsSpan(follow)
    ensures ParseStrokeAsWritten(2, AtomStrokeBrushParse, ts, follow) == Err(Locate(Raise(MalformedNumberTuple), ts[2].pos))
  {
    assert !IsStringLiteral(follow);
    OneAtomGroup(ts, follow);
    DiameterTen();
    BrushAtomRejectsClose(ts[1], ts[2]);
    WindowPair(ts, 1);
    assert AtomsFrom(ts, 1, 2, 2, AtomStrokeBrushParse) == Err(Locate(Raise(MalformedNumberTuple), ts[2].pos));
  }

  /** Corrected: the one-token contents fail the size test. */
  lemma BrushSizeCorrected(ts: seq<Token>, follow: Token)
    requires TenThenAffine(ts) && follow.text == ";"
    ensures EndsSpan(follow)
    ensures StrokeElement(2, AtomStrokeBrushParse, ts, follow) == Err(Raise(ElementBrushSize))
  {
    assert !IsStringLiteral(follow);
    OneAtomGroup(ts, follow);
    assert |ts[1..2]| % 2 == 1;
  }

  lemma WindowPair(ts: seq<Token>, j: nat)
    requires j + 2 <= |ts|
    ensures Window(ts, j, 2) == [ts[j], ts[j + 1]]
  {
    var w := Window(ts, j, 2);
    assert |w| == 2 && w[0] == ts[j] && w[1] == ts[j + 1];
  }

  lemma OneAtomGroup(ts: seq<Token>, follow: Token)
    requires |ts| >= 3 && ts[0].text == "[" && ts[1].text != "[" && ts[1].text != "]" && ts[2].text == "]"
    requires EndsSpan(follow)
    ensures Group(ts, follow, 0) == (Ok(ts[1..2]), 3)
  {
    assert Close(ts, 2, 1) == Some(3);
    assert Close(ts, 1, 1) == Some(3);
  }

  /* ~~ Element parsers ~~~~~~~~~~~~~~~~~~~~~~~~~~~~~~~~~~~~~~~~~~~~~~~~~~~ */

  /** `typeBrushParse`: brush atoms, two tokens each. */
  function TypeBrushParse(ts: seq<Token>, follow: Token): Result<Element, ParseError>
    requires EndsSpan(follow)
  {
    var (atoms, mods) :- StrokeElement(2, AtomStrokeBrushParse, ts, follow);
    Ok(Brush(atoms, mods))
  }

  /** `typePencilParse`: data atoms, one token each. */
  function TypePencilParse(ts: seq<Token>, follow: Token): Result<Element, ParseError>
    requires EndsSpan(follow)
  {
    var (atoms, mods) :- StrokeElement(1, AtomStrokeDataParse, ts, follow);
    Ok(Pencil(atoms, mods))
  }

  /** `typeDataParse`: data atoms, one token each. */
  function TypeDataParse(ts: seq<Token>, follow: Token): Result<Element, ParseError>
    requires EndsSpan(follow)
  {
    var (atoms, mods) :- StrokeElement(1, AtomStrokeDataParse, ts, follow);
    Ok(Data(atoms, mods))
  }

  /** `typeRawParse`: raw atoms, one token each, into a `Data` element. */
  function TypeRawParse(ts: seq<Token>, follow: Token): Result<Element, ParseError>
    requires EndsSpan(follow)
  {
    var (atoms, mods) :- StrokeElement(1, AtomStrokeRawParse, ts, follow);
    Ok(Data(atoms, mods))
  }

  /** `typeMarkerParse`: one string literal, then the marker modifiers;
      either failure is located at the literal's token. */
  function TypeMarkerParse(ts: seq<Token>, follow: Token): Result<Element, ParseError>
    requires EndsSpan(follow)
  {
    if ts == [] then Err(Raise(EmptyElement))
    else
      match AtomMarkerParse(ts[..1])
      case Err(e) => Err(Locate(e, ts[0].pos))
      case Ok(marker) =>
        match MarkerModsRead(ts[1..], follow, 0)
        case Err(e) => Err(Locate(e, ts[0].pos))
        case Ok(mods) => Ok(MarkerElement(marker, mods))
  }

  /** `elementParse`: the type word chooses the element parser, which reads
      the rest of the span. */
  function ElementParse(ts: seq<Token>, follow: Token): (r: Result<Element, ParseError>)
    requires EndsSpan(follow)
    ensures ts == [] ==> r == Err(Raise(EmptyElement))
  {
    if ts == [] then Err(Raise(EmptyElement))
    else
      var kind := ts[0].text;
      if kind == "Brush" then TypeBrushParse(ts[1..], follow)
      else if kind == "Pencil" then TypePencilParse(ts[1..], follow)
      else if kind == "Data" then TypeDataParse(ts[1..], follow)
      else if kind == "Raw" then TypeRawParse(ts[1..], follow)
      else if kind == "Marker" then TypeMarkerParse(ts[1..], follow)
      else Err(Locate(Raise(UnknownElementType), ts[0].pos))
  }

  /* ~~ sketchParse ~~~~~~~~~~~~~~~~~~~~~~~~~~~~~~~~~~~~~~~~~~~~~~~~~~~~~~~ */

  /** `std::find` from index `i`: the first token with the text, or the end. */
  function Find(tokens: seq<Token>, text: string, i: nat): (k: nat)
    requires i <= |tokens|
    ensures i <= k <= |tokens|
    ensures k < |tokens| ==> tokens[k].text == text
    ensures forall j :: i <= j < k ==> tokens[j].text != text
    decreases |tokens| - i
  {
    if i == |tokens| || tokens[i].text == text then i else Find(tokens, text, i + 1)
  }

  /** A "," or ";" ends a span. */
  lemma DelimiterEndsSpan(t: Token)
    requires t.text == "," || t.text == ";"
    ensures EndsSpan(t)
  {
  }

  /** Where an element starting at `start` ends: the next "," before the
      first ";" at `semi`, or `semi`. */
  function NextDelimiter(tokens: seq<Token>, start: nat, semi: nat): (d: nat)
    requires start <= semi < |tokens|
    ensures start <= d <= semi
    ensures d < semi ==> tokens[d].text == ","
    ensures forall j :: start <= j < d ==> tokens[j].text != ","
  {
    var next := Find(tokens, ",", start);
    if next < semi then next else semi
  }

  /** What `sketchParse` asks of its element parser: it is defined on
      every span followed by a "," or ";", and fails on an empty span. */
  ghost predicate ElementReader(parse: (seq<Token>, Token) --> Result<Element, ParseError>) {
    (forall ts: seq<Token>, follow: Token :: EndsSpan(follow) ==> parse.requires(ts, follow)) &&
    (forall follow: Token :: EndsSpan(follow) ==> parse([], follow).Err?)
  }

  lemma ReaderApplies(parse: (seq<Token>, Token) --> Result<Element, ParseError>, ts: seq<Token>, follow: Token)
    requires ElementReader(parse) && EndsSpan(follow)
    ensures parse.requires(ts, follow)
    ensures ts == [] ==> parse(ts, follow).Err?
  {
  }

  lemma ElementParseReader()
    ensures ElementReader(ElementParse)
  {
  }

  /** The elements `sketchParse` reads with `parse` from `it` up to the
      first ";" at `semi`: a "," after the first token is stepped over, and
      each element runs to the next "," or to `semi`; a failure is located
      at the element's first token. */
  function ElementsFrom(parse: (seq<Token>, Token) --> Result<Element, ParseError>,
                        tokens: seq<Token>, it: nat, semi: nat): Result<seq<Element>, ParseError>
    requires ElementReader(parse)
    requires it <= semi < |tokens| && tokens[semi].text == ";"
    decreases semi - it
  {
    if it == semi then Ok([])
    else
      var start := if tokens[it].text == "," && it != 0 then it + 1 else it;
      var delim := NextDelimiter(tokens, start, semi);
      DelimiterEndsSpan(tokens[delim]);
      match parse(tokens[start..delim], tokens[delim])
      case Err(e) => Err(Locate(e, tokens[start].pos))
      case Ok(element) =>
        assert start < delim;
        Prefixed([element], ElementsFrom(parse, tokens, delim, semi))
  }

  /** What `sketchParse` returns: `EmptyFile` for no tokens,
      `MissingSemicolon` at the last token without a ";", otherwise the
      elements before the first ";". */
  function SketchRead(tokens: seq<Token>): Result<Sketch, ParseError> {
    if tokens == [] then Err(Raise(EmptyFile))
    else
      var semi := Find(tokens, ";", 0);
      if semi == |tokens| then Err(Locate(Raise(MissingSemicolon), tokens[|tokens| - 1].pos))
      else
        ElementParseReader();
        var elements :- ElementsFrom(ElementParse, tokens, 0, semi);
        Ok(Sketch(elements))
  }

  /** `sketchParse`: the ","-separated elements before the first ";". */
  method SketchParse(tokens: seq<Token>) returns (r: Result<Sketch, ParseError>)
    ensures r == SketchRead(tokens)
  {
    if tokens == [] {
      return Err(Raise(EmptyFile));
    }
    var semi := Find(tokens, ";", 0);
    if semi == |tokens| {
      return Err(Locate(Raise(MissingSemicolon), tokens[|tokens| - 1].pos));
    }
    var elements: seq<Element> := [];
    var it := 0;
    ElementParseReader();
    PrefixedNil(ElementsFrom(ElementParse, tokens, 0, semi));
    while it != semi
      invariant it <= semi
      invariant ElementsFrom(ElementParse, tokens, 0, semi) == Prefixed(elements, ElementsFrom(ElementParse, tokens, it, semi))
      decreases semi - it
    {
      if tokens[it].text == "," && it != 0 {
        it := it + 1;
      }
      var next := Find(tokens, ",", it);
      var delim := if next < semi then next else semi;
      assert delim == NextDelimiter(tokens, it, semi);
      DelimiterEndsSpan(tokens[delim]);
      var element := ElementParse(tokens[it..delim], tokens[delim]);
      if element.Err? {
        return Err(Locate(element.error, tokens[it].pos));
      }
      PrefixedSnoc(elements, element.value, ElementsFrom(ElementParse, tokens, delim, semi));
      elements := elements + [element.value];
      it := delim;
    }
    assert elements + [] == elements;
    return Ok(Sketch(elements));
  }

  /** What `SketchFormat::parse` returns for a text: its tokens' sketch, or
      the tokenizer's error. */
  function ParseText(s: string): Result<Sketch, ParseError> {
    var tokens :- Lexer.Emit(Lexer.Current, s, Lexer.Lex(Lexer.Current, s, 0, true));
    SketchRead(tokens)
  }

  /** `SketchFormat::parse`: tokenize, then parse the tokens. */
  method Parse(s: string) returns (r: Result<Sketch, ParseError>)
    ensures r == ParseText(s)
  {
    var tokens := Lexer.Tokenize(s);
    if tokens.Err? {
      return Err(tokens.error);
    }
    r := SketchParse(tokens.value);
  }

  /* ~~ Properties of elementParse and sketchParse ~~~~~~~~~~~~~~~~~~~~~~~~ */

  /** The type word alone decides which kind of element a successful parse
      builds, "Raw" giving a `Data` element like "Data"; any other word is
      `UnknownElementType` at that word. */
  lemma ElementParseDispatch(ts: seq<Token>, follow: Token)
    requires EndsSpan(follow)
    ensures ElementParse(ts, follow).Ok? ==>
      ts != [] && ts[0].text in {"Brush", "Pencil", "Data", "Raw", "Marker"}
    ensures ElementParse(ts, follow).Ok? && ts[0].text == "Brush" ==> ElementParse(ts, follow).value.Brush?
    ensures ElementParse(ts, follow).Ok? && ts[0].text == "Pencil" ==> ElementParse(ts, follow).value.Pencil?
    ensures ElementParse(ts, follow).Ok? && ts[0].text in {"Data", "Raw"} ==> ElementParse(ts, follow).value.Data?
    ensures ElementParse(ts, follow).Ok? && ts[0].text == "Marker" ==> ElementParse(ts, follow).value.MarkerElement?
    ensures ts != [] && ts[0].text !in {"Brush", "Pencil", "Data", "Raw", "Marker"} ==>
      ElementParse(ts, follow) == Err(ParseError(UnknownElementType, ts[0].pos))
  {
  }

  /** No tokens is `EmptyFile`; tokens without a ";" fail with
      `MissingSemicolon` at the last token. */
  lemma SketchReadErrors(tokens: seq<Token>)
    ensures tokens == [] ==> SketchRead(tokens) == Err(ParseError(EmptyFile, Unknown))
    ensures tokens != [] && (forall k :: 0 <= k < |tokens| ==> tokens[k].text != ";") ==>
      SketchRead(tokens) == Err(ParseError(MissingSemicolon, tokens[|tokens| - 1].pos))
  {
    if tokens != [] && forall k :: 0 <= k < |tokens| ==> tokens[k].text != ";" {
      assert Find(tokens, ";", 0) == |tokens|;
    }
  }

  /** `Find` gives the first match from `i`, which pins it down. */
  lemma FindFirst(tokens: seq<Token>, text: string, i: nat, k: nat)
    requires i <= k < |tokens| && tokens[k].text == text
    requires forall j :: i <= j < k ==> tokens[j].text != text
    ensures Find(tokens, text, i) == k
  {
  }

  /** Two token sequences that agree up to and including index `semi`. */
  predicate AgreeUpTo(t: seq<Token>, u: seq<Token>, semi: nat) {
    semi < |t| && semi < |u| && forall j :: 0 <= j <= semi ==> t[j] == u[j]
  }

  /** Agreeing sequences find the same delimiter. */
  lemma NextDelimiterAgree(t: seq<Token>, u: seq<Token>, start: nat, semi: nat)
    requires AgreeUpTo(t, u, semi) && start <= semi
    ensures NextDelimiter(t, start, semi) == NextDelimiter(u, start, semi)
  {
  }

  lemma AgreeSlice(t: seq<Token>, u: seq<Token>, semi: nat, lo: nat, hi: nat)
    requires AgreeUpTo(t, u, semi) && lo <= hi <= semi
    ensures t[lo..hi] == u[lo..hi]
  {
    assert forall j :: 0 <= j < hi - lo ==> t[lo..hi][j] == t[lo + j] == u[lo + j] == u[lo..hi][j];
  }

  /** `ElementsFrom` reads nothing after the first ";": sequences that
      agree up to it give the same elements. */
  lemma {:induction false} ElementsFromAgree(parse: (seq<Token>, Token) --> Result<Element, ParseError>,
                                             t: seq<Token>, u: seq<Token>, it: nat, semi: nat)
    requires ElementReader(parse) && AgreeUpTo(t, u, semi)
    requires it <= semi && t[semi].text == ";"
    ensures ElementsFrom(parse, t, it, semi) == ElementsFrom(parse, u, it, semi)
    decreases semi - it
  {
    if it < semi {
      var start := if t[it].text == "," && it != 0 then it + 1 else it;
      var delim := NextDelimiter(t, start, semi);
      if delim > it {
        ElementsFromAgree(parse, t, u, delim, semi);
      }
      ElementsFromAgreeStep(parse, t, u, it, semi, start, delim);
    }
  }

  /** The step of `ElementsFromAgree`: the first element reads the same
      span in both, and so does the rest. */
  lemma ElementsFromAgreeStep(parse: (seq<Token>, Token) --> Result<Element, ParseError>,
                              t: seq<Token>, u: seq<Token>, it: nat, semi: nat, start: nat, delim: nat)
    requires ElementReader(parse) && AgreeUpTo(t, u, semi)
    requires it < semi && t[semi].text == ";"
    requires start == if t[it].text == "," && it != 0 then it + 1 else it
    requires delim == NextDelimiter(t, start, semi)
    requires delim > it ==> ElementsFrom(parse, t, delim, semi) == ElementsFrom(parse, u, delim, semi)
    ensures ElementsFrom(parse, t, it, semi) == ElementsFrom(parse, u, it, semi)
  {
    assert t[it] == u[it] && t[start] == u[start] && t[delim] == u[delim];
    NextDelimiterAgree(t, u, start, semi);
    AgreeSlice(t, u, semi, start, delim);
    DelimiterEndsSpan(t[delim]);
    ReaderApplies(parse, t[start..delim], t[delim]);
  }

  /** Only the tokens up to the first ";" matter: whatever follows it is
      never read. */
  lemma SketchReadIgnoresTail(tokens: seq<Token>, semi: nat)
    requires semi < |tokens| && tokens[semi].text == ";"
    requires forall j :: 0 <= j < semi ==> tokens[j].text != ";"
    ensures SketchRead(tokens) == SketchRead(tokens[..semi + 1])
  {
    var p := tokens[..semi + 1];
    FindFirst(tokens, ";", 0, semi);
    FindFirst(p, ";", 0, semi);
    ElementParseReader();
    ElementsFromAgree(ElementParse, tokens, p, 0, semi);
  }

  /** The number of tokens with the given text. */
  function CountText(ts: seq<Token>, text: string): (n: nat)
    ensures n <= |ts|
  {
    if ts == [] then 0 else (if ts[0].text == text then 1 else 0) + CountText(ts[1..], text)
  }

  lemma {:induction false} CountTextAppend(a: seq<Token>, b: seq<Token>, text: string)
    ensures CountText(a + b, text) == CountText(a, text) + CountText(b, text)
    decreases |a|
  {
    if a != [] {
      assert (a + b)[1..] == a[1..] + b;
      CountTextAppend(a[1..], b, text);
    } else {
      assert a + b == b;
    }
  }

  lemma {:induction false} CountTextNone(ts: seq<Token>, text: string)
    requires forall k :: 0 <= k < |ts| ==> ts[k].text != text
    ensures CountText(ts, text) == 0
    decreases |ts|
  {
    if ts != [] {
      CountTextNone(ts[1..], text);
    }
  }

  /** Splitting a token range at a "," found in it. */
  lemma CountAtComma(tokens: seq<Token>, lo: nat, next: nat, hi: nat)
    requires lo <= next < hi <= |tokens| && tokens[next].text == ","
    requires forall j :: lo <= j < next ==> tokens[j].text != ","
    ensures CountText(tokens[lo..hi], ",") == 1 + CountText(tokens[next + 1..hi], ",")
  {
    assert tokens[lo..hi] == tokens[lo..next] + ([tokens[next]] + tokens[next + 1..hi]);
    CountTextAppend(tokens[lo..next], [tokens[next]] + tokens[next + 1..hi], ",");
    CountTextAppend([tokens[next]], tokens[next + 1..hi], ",");
    CountTextNone(tokens[lo..next], ",");
    assert [tokens[next]][1..] == [];
  }

  /** One element of a successful read: it spans from `start` to the next
      "," (or `semi`), and the rest is read from there. */
  lemma ElementsFromStep(parse: (seq<Token>, Token) --> Result<Element, ParseError>,
                         tokens: seq<Token>, it: nat, semi: nat, start: nat, delim: nat)
    requires ElementReader(parse)
    requires it < semi < |tokens| && tokens[semi].text == ";"
    requires start == if tokens[it].text == "," && it != 0 then it + 1 else it
    requires delim == NextDelimiter(tokens, start, semi)
    requires ElementsFrom(parse, tokens, it, semi).Ok?
    ensures it < delim && start < delim
    ensures ElementsFrom(parse, tokens, delim, semi).Ok?
    ensures |ElementsFrom(parse, tokens, it, semi).value| == 1 + |ElementsFrom(parse, tokens, delim, semi).value|
  {
  }

  /** From an element start, a successful read holds one element more than
      there are "," tokens after the start and before `semi`; a "," as the
      very first token fails. */
  lemma {:induction false} ElementsCount(parse: (seq<Token>, Token) --> Result<Element, ParseError>,
                                         tokens: seq<Token>, it: nat, semi: nat)
    requires ElementReader(parse)
    requires it < semi < |tokens| && tokens[semi].text == ";"
    requires it == 0 || tokens[it].text == ","
    ensures ElementsFrom(parse, tokens, it, semi).Ok? ==>
      |ElementsFrom(parse, tokens, it, semi).value| == 1 + CountText(tokens[it + 1..semi], ",")
    ensures ElementsFrom(parse, tokens, it, semi).Ok? && it == 0 ==> tokens[0].text != ","
    decreases semi - it
  {
    if ElementsFrom(parse, tokens, it, semi).Ok? {
      var start := if tokens[it].text == "," && it != 0 then it + 1 else it;
      var delim := NextDelimiter(tokens, start, semi);
      ElementsFromStep(parse, tokens, it, semi, start, delim);
      if delim == semi {
        CountTextNone(tokens[it + 1..semi], ",");
      } else {
        ElementsCount(parse, tokens, delim, semi);
        CountAtComma(tokens, it + 1, delim, semi);
      }
    }
  }

  /** A sketch has one element per ","-separated group before the first
      ";" (none when the ";" comes first). */
  lemma SketchReadCount(tokens: seq<Token>, semi: nat)
    requires semi < |tokens| && tokens[semi].text == ";"
    requires forall j :: 0 <= j < semi ==> tokens[j].text != ";"
    ensures SketchRead(tokens).Ok? ==>
      |SketchRead(tokens).value.elements| == (if semi == 0 then 0 else 1 + CountText(tokens[..semi], ","))
  {
    FindFirst(tokens, ";", 0, semi);
    if semi > 0 && SketchRead(tokens).Ok? {
      ElementParseReader();
      ElementsCount(ElementParse, tokens, 0, semi);
      assert tokens[..semi][1..] == tokens[1..semi];
    }
  }
}
