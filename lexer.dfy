/**
 * The document tokenizer `SketchFormat::tokenize` (src/parsers.cc) and its
 * earlier draft (src/parser.cc). Both are a character-by-character state
 * machine, `Tokenize` and `TokenizeDraft`, sharing one loop body that is
 * parameterised by the dialect; each is proved equal to a recursive-descent
 * reading of the same text, `Lex`, which skips comments and blanks and cuts
 * the text into operators, words and parenthesised string literals. The
 * properties of the tokenizers are then properties of `Lex`.
 */
module Lexer {
  import opened Results
  import opened Util
  import opened ParserBase

  /** The draft also counts ':' as an operator, and stops on a ';' that
      follows an operator instead of on the operator ';' itself. */
  datatype Dialect = Draft | Current

  /** The states of the machine (the draft names `NumOrType` `Token` and
      `Operator` `Op`). */
  datatype State = LineStart | Comment | Space | End | NumOrType | String | StringEnd | Operator

  predicate IsOperator(d: Dialect, c: char) {
    if d.Draft? then IsAny(c, [Span(":[],;")]) else IsAny(c, [Span("[],;")])
  }

  lemma OperatorChars(d: Dialect, c: char)
    ensures IsOperator(d, c) <==> c == '[' || c == ']' || c == ',' || c == ';' || (d.Draft? && c == ':')
  {
    IsAnyOneSpan(c, ":[],;");
    IsAnyOneSpan(c, "[],;");
  }

  /** The tests the state lambda applies to a character, in its order:
      line break, other blank, operator, '(', and, inside a string, ')';
      '%' matters at the start of a line only. */
  datatype CharClass = Newline | Blank | Op | Open | Close | Percent | Other

  function Class(d: Dialect, c: char): CharClass {
    if c == '\n' || c == '\r' then Newline
    else if c == ' ' || c == '\t' then Blank
    else if c == '[' || c == ']' || c == ',' || c == ';' || (d.Draft? && c == ':') then Op
    else if c == '(' then Open
    else if c == ')' then Close
    else if c == '%' then Percent
    else Other
  }

  /** `Class` is the first of the state lambda's tests that the character
      passes: `isNewline`, `isWhitespace`, `isAny` of the operators, then
      the parentheses and '%'. */
  lemma ClassTests(d: Dialect, c: char)
    ensures Class(d, c) ==
      if IsNewline(c) then Newline
      else if IsWhitespace(c) then Blank
      else if IsOperator(d, c) then Op
      else if c == '(' then Open
      else if c == ')' then Close
      else if c == '%' then Percent
      else Other
  {
    CharClasses(c);
    OperatorChars(d, c);
  }

  /** The characters that end a word. */
  predicate Delimits(d: Dialect, c: char) {
    Class(d, c) in {Newline, Blank, Op, Open}
  }

  /** The state lambda: the next state after reading `c` in `state`, and the
      nesting depth of parentheses, which it updates inside a string. */
  function Transition(d: Dialect, state: State, c: char, parens: int): (State, int) {
    var k := Class(d, c);
    if state == LineStart && k == Percent then (Comment, parens)
    else if state == Comment then (if k == Newline then LineStart else Comment, parens)
    else if state == String then
      if k == Open then (String, parens + 1)
      else if k == Close then (if parens - 1 <= 0 then StringEnd else String, parens - 1)
      else (String, parens)
    else if k == Newline then (LineStart, parens)
    else if k == Blank then (Space, parens)
    else if k == Op then (Operator, parens)
    else if k == Open then (String, parens)
    else (NumOrType, parens)
  }

  /* ~~ The reference reading ~~~~~~~~~~~~~~~~~~~~~~~~~~~~~~~~~~~~~~~~~~~~ */

  /** A token as a slice `[start, end)` of the text, with the index `at` of
      the character the machine was reading when it emitted the token. */
  datatype Lexeme = Lexeme(start: nat, end: nat, at: nat)

  /** The outcome of a reading: the lexemes, or a string literal still
      open at the end of the text. */
  datatype Scan = Done(lexemes: seq<Lexeme>) | Unbalanced

  function Prepend(x: Lexeme, r: Scan): Scan {
    match r
    case Done(l) => Done([x] + l)
    case Unbalanced => Unbalanced
  }

  function Append(xs: seq<Lexeme>, r: Scan): Scan {
    match r
    case Done(l) => Done(xs + l)
    case Unbalanced => Unbalanced
  }

  /** Non-empty slices of `[lo, hi)`, in text order, each emitted at its
      last character or just after it. */
  predicate Spans(l: seq<Lexeme>, lo: nat, hi: nat) {
    (forall k :: 0 <= k < |l| ==> lo <= l[k].start < l[k].end <= hi && l[k].end - 1 <= l[k].at <= l[k].end) &&
    (forall j, k :: 0 <= j < k < |l| ==> l[j].end <= l[k].start)
  }

  /** Reading stops after the operator at `k`: in the current tokenizer
      when that operator is ';', in the draft when the character after it
      is ';'. */
  predicate Stops(d: Dialect, s: string, k: nat)
    requires k < |s|
  {
    if d.Current? then s[k] == ';' else k + 1 < |s| && s[k + 1] == ';'
  }

  /** The text from `i` on, `lineStart` telling whether `i` begins a line:
      a '%' there starts a comment, a line break or blank is skipped, an
      operator is a token of its own, '(' opens a string literal, anything
      else starts a word. */
  function Lex(d: Dialect, s: string, i: nat, lineStart: bool): Scan
    requires i <= |s|
    decreases |s| - i, 0
  {
    if i == |s| then Done([])
    else
      var k := Class(d, s[i]);
      if lineStart && k == Percent then SkipComment(d, s, i + 1)
      else if k == Newline then Lex(d, s, i + 1, true)
      else if k == Blank then Lex(d, s, i + 1, false)
      else if k == Op then
        Prepend(Lexeme(i, i + 1, i + 1), if Stops(d, s, i) then Done([]) else Lex(d, s, i + 1, false))
      else if k == Open then Literal(d, s, i, i + 1, 1)
      else Word(d, s, i, i + 1)
  }

  /** A comment runs to the end of its line. */
  function SkipComment(d: Dialect, s: string, i: nat): Scan
    requires i <= |s|
    decreases |s| - i, 0
  {
    if i == |s| then Done([])
    else if Class(d, s[i]) == Newline then Lex(d, s, i + 1, true)
    else SkipComment(d, s, i + 1)
  }

  /** A word started at `start` runs up to the first delimiter. */
  function Word(d: Dialect, s: string, start: nat, i: nat): Scan
    requires start < i <= |s|
    decreases |s| - i, 1
  {
    if i == |s| || Delimits(d, s[i]) then Prepend(Lexeme(start, i, i), Lex(d, s, i, false))
    else Word(d, s, start, i + 1)
  }

  /** A string literal opened at `start`, `depth` parentheses deep at `i`,
      runs up to the ')' that closes its first '('. */
  function Literal(d: Dialect, s: string, start: nat, i: nat, depth: nat): Scan
    requires start < i <= |s| && depth >= 1
    decreases |s| - i, 0
  {
    if i == |s| then Unbalanced
    else if Class(d, s[i]) == Open then Literal(d, s, start, i + 1, depth + 1)
    else if Class(d, s[i]) == Close then
      if depth == 1 then Prepend(Lexeme(start, i + 1, i), Lex(d, s, i + 1, false))
      else Literal(d, s, start, i + 1, depth - 1)
    else Literal(d, s, start, i + 1, depth)
  }

  /** A lexeme in front of a reading that starts no earlier than its end. */
  lemma PrependSpans(x: Lexeme, r: Scan, lo: nat, mid: nat, hi: nat)
    requires lo <= x.start < x.end <= mid && x.end - 1 <= x.at <= x.end && x.end <= hi
    requires r.Done? ==> Spans(r.lexemes, mid, hi)
    ensures Prepend(x, r).Done? ==> Spans(Prepend(x, r).lexemes, lo, hi)
  {
    if r.Done? {
      var l := [x] + r.lexemes;
      assert forall k :: 0 < k < |l| ==> l[k] == r.lexemes[k - 1];
    }
  }

  /** The reading yields non-empty slices of the text in order, each
      emitted at its last character or just after it. */
  lemma {:induction false} LexSpans(d: Dialect, s: string, i: nat, lineStart: bool)
    requires i <= |s|
    ensures Lex(d, s, i, lineStart).Done? ==> Spans(Lex(d, s, i, lineStart).lexemes, i, |s|)
    decreases |s| - i, 0
  {
    if i < |s| {
      var k := Class(d, s[i]);
      if lineStart && k == Percent {
        SkipCommentSpans(d, s, i + 1);
      } else if k == Newline {
        LexSpans(d, s, i + 1, true);
      } else if k == Blank {
        LexSpans(d, s, i + 1, false);
      } else if k == Op {
        if !Stops(d, s, i) {
          LexSpans(d, s, i + 1, false);
        }
        PrependSpans(Lexeme(i, i + 1, i + 1), if Stops(d, s, i) then Done([]) else Lex(d, s, i + 1, false), i, i + 1, |s|);
      } else if k == Open {
        LiteralSpans(d, s, i, i + 1, 1);
      } else {
        WordSpans(d, s, i, i + 1);
      }
    }
  }

  lemma {:induction false} SkipCommentSpans(d: Dialect, s: string, i: nat)
    requires i <= |s|
    ensures SkipComment(d, s, i).Done? ==> Spans(SkipComment(d, s, i).lexemes, i, |s|)
    decreases |s| - i, 0
  {
    if i < |s| {
      if Class(d, s[i]) == Newline {
        LexSpans(d, s, i + 1, true);
      } else {
        SkipCommentSpans(d, s, i + 1);
      }
    }
  }

  lemma {:induction false} WordSpans(d: Dialect, s: string, start: nat, i: nat)
    requires start < i <= |s|
    ensures Word(d, s, start, i).Done? ==> Spans(Word(d, s, start, i).lexemes, start, |s|)
    decreases |s| - i, 1
  {
    if i == |s| || Delimits(d, s[i]) {
      LexSpans(d, s, i, false);
      PrependSpans(Lexeme(start, i, i), Lex(d, s, i, false), start, i, |s|);
    } else {
      WordSpans(d, s, start, i + 1);
    }
  }

  lemma {:induction false} LiteralSpans(d: Dialect, s: string, start: nat, i: nat, depth: nat)
    requires start < i <= |s| && depth >= 1
    ensures Literal(d, s, start, i, depth).Done? ==> Spans(Literal(d, s, start, i, depth).lexemes, start, |s|)
    decreases |s| - i, 0
  {
    if i < |s| {
      var k := Class(d, s[i]);
      if k == Open {
        LiteralSpans(d, s, start, i + 1, depth + 1);
      } else if k == Close {
        if depth == 1 {
          LexSpans(d, s, i + 1, false);
          PrependSpans(Lexeme(start, i + 1, i), Lex(d, s, i + 1, false), start, i + 1, |s|);
        } else {
          LiteralSpans(d, s, start, i + 1, depth - 1);
        }
      } else {
        LiteralSpans(d, s, start, i + 1, depth);
      }
    }
  }

  /* ~~ Tokens ~~~~~~~~~~~~~~~~~~~~~~~~~~~~~~~~~~~~~~~~~~~~~~~~~~~~~~~~~~~ */

  /** `SourcePos pos {1,1}`: the machine starts at row 1, column 1. */
  const Origin := SourcePos(1, 1)

  /** The text of a lexeme. Readings only hold lexemes inside the text
      (`LexSpans`); any other has no text. */
  function Text(s: string, x: Lexeme): string {
    if x.start <= x.end <= |s| then s[x.start..x.end] else []
  }

  /** The token of a lexeme: its text, and the position reached when it was
      emitted. The draft's tokens hold no position. */
  function TokenAt(d: Dialect, s: string, x: Lexeme): Token {
    Token(Text(s, x), if d.Current? then Advance(Origin, s[..if x.at <= |s| then x.at else |s|]) else Unknown)
  }

  function Tokens(d: Dialect, s: string, l: seq<Lexeme>): (ts: seq<Token>)
    ensures |ts| == |l|
  {
    if l == [] then [] else Tokens(d, s, l[..|l| - 1]) + [TokenAt(d, s, l[|l| - 1])]
  }

  /* ~~ The shape of the lexemes ~~~~~~~~~~~~~~~~~~~~~~~~~~~~~~~~~~~~~~~~~ */

  function Delta(c: char): int {
    if c == '(' then 1 else if c == ')' then -1 else 0
  }

  /** The nesting depth of parentheses after reading `t`. */
  function Depth(t: string): int {
    if t == [] then 0 else Depth(t[..|t| - 1]) + Delta(t[|t| - 1])
  }

  lemma DepthSnoc(t: string, c: char)
    ensures Depth(t + [c]) == Depth(t) + Delta(c)
  {
    assert (t + [c])[..|t|] == t;
  }

  /** A single operator character. */
  predicate IsOperatorText(d: Dialect, t: string) {
    |t| == 1 && Class(d, t[0]) == Op
  }

  /** A non-empty run of characters none of which ends a word. */
  predicate IsWord(d: Dialect, t: string) {
    |t| >= 1 && forall k :: 0 <= k < |t| ==> !Delimits(d, t[k])
  }

  /** The start of a string literal: '(' first, and every non-empty prefix
      at a positive depth, the whole at depth `depth`. */
  predicate LiteralPrefix(t: string, depth: int) {
    |t| >= 1 && t[0] == '(' && Depth(t) == depth &&
    forall k :: 1 <= k <= |t| ==> Depth(t[..k]) >= 1
  }

  /** A string literal: '(' up to the ')' that brings the depth back to
      zero, with the depth positive in between. */
  predicate IsLiteral(t: string) {
    |t| >= 2 && t[0] == '(' && Depth(t) == 0 &&
    forall k :: 1 <= k < |t| ==> Depth(t[..k]) >= 1
  }

  predicate Shaped(d: Dialect, t: string) {
    IsOperatorText(d, t) || IsWord(d, t) || IsLiteral(t)
  }

  /** Every lexeme is an operator, a word or a string literal, and in the
      current tokenizer none but the last is ";". */
  predicate WellShaped(d: Dialect, s: string, l: seq<Lexeme>) {
    (forall k :: 0 <= k < |l| ==> Shaped(d, Text(s, l[k]))) &&
    (d.Current? ==> forall k :: 0 <= k < |l| - 1 ==> Text(s, l[k]) != ";")
  }

  lemma PrependShaped(d: Dialect, s: string, x: Lexeme, r: Scan)
    requires Shaped(d, Text(s, x))
    requires d.Current? && Text(s, x) == ";" ==> r == Done([])
    requires r.Done? ==> WellShaped(d, s, r.lexemes)
    ensures Prepend(x, r).Done? ==> WellShaped(d, s, Prepend(x, r).lexemes)
  {
    if r.Done? {
      var l := [x] + r.lexemes;
      assert forall k :: 0 < k < |l| ==> l[k] == r.lexemes[k - 1];
    }
  }

  /** Every reading is well shaped: operators stand alone, words hold no
      delimiter, string literals are balanced, and the current tokenizer
      reads nothing after a ';'. */
  lemma {:induction false} LexShape(d: Dialect, s: string, i: nat, lineStart: bool)
    requires i <= |s|
    ensures Lex(d, s, i, lineStart).Done? ==> WellShaped(d, s, Lex(d, s, i, lineStart).lexemes)
    decreases |s| - i, 0
  {
    if i < |s| {
      var k := Class(d, s[i]);
      if lineStart && k == Percent {
        SkipCommentShape(d, s, i + 1);
      } else if k == Newline {
        LexShape(d, s, i + 1, true);
      } else if k == Blank {
        LexShape(d, s, i + 1, false);
      } else if k == Op {
        if !Stops(d, s, i) {
          LexShape(d, s, i + 1, false);
        }
        assert Text(s, Lexeme(i, i + 1, i + 1)) == [s[i]];
        PrependShaped(d, s, Lexeme(i, i + 1, i + 1), if Stops(d, s, i) then Done([]) else Lex(d, s, i + 1, false));
      } else if k == Open {
        assert LiteralPrefix(s[i..i + 1], 1) by {
          assert s[i..i + 1] == [s[i]] && s[i..i + 1][..1] == [s[i]];
          DepthSnoc([], s[i]);
        }
        LiteralShape(d, s, i, i + 1, 1);
      } else {
        assert s[i..i + 1] == [s[i]];
        WordShape(d, s, i, i + 1);
      }
    }
  }

  lemma {:induction false} SkipCommentShape(d: Dialect, s: string, i: nat)
    requires i <= |s|
    ensures SkipComment(d, s, i).Done? ==> WellShaped(d, s, SkipComment(d, s, i).lexemes)
    decreases |s| - i, 0
  {
    if i < |s| {
      if Class(d, s[i]) == Newline {
        LexShape(d, s, i + 1, true);
      } else {
        SkipCommentShape(d, s, i + 1);
      }
    }
  }

  lemma {:induction false} WordShape(d: Dialect, s: string, start: nat, i: nat)
    requires start < i <= |s| && IsWord(d, s[start..i])
    ensures Word(d, s, start, i).Done? ==> WellShaped(d, s, Word(d, s, start, i).lexemes)
    decreases |s| - i, 1
  {
    if i == |s| || Delimits(d, s[i]) {
      LexShape(d, s, i, false);
      assert Text(s, Lexeme(start, i, i)) == s[start..i];
      assert s[start..i][0] != ';';
      PrependShaped(d, s, Lexeme(start, i, i), Lex(d, s, i, false));
    } else {
      assert s[start..i + 1] == s[start..i] + [s[i]];
      WordShape(d, s, start, i + 1);
    }
  }

  /** A literal prefix grows by one character and stays a prefix while
      the depth stays positive. */
  lemma LiteralGrow(t: string, depth: int, c: char)
    requires LiteralPrefix(t, depth) && depth + Delta(c) >= 1
    ensures LiteralPrefix(t + [c], depth + Delta(c))
  {
    DepthSnoc(t, c);
    var u := t + [c];
    assert forall k :: 1 <= k <= |t| ==> u[..k] == t[..k];
    assert u[..|u|] == u;
  }

  /** The ')' that brings a literal prefix back to depth zero ends a
      literal. */
  lemma LiteralClose(t: string)
    requires LiteralPrefix(t, 1)
    ensures IsLiteral(t + [')'])
  {
    DepthSnoc(t, ')');
    var u := t + [')'];
    assert forall k :: 1 <= k <= |t| ==> u[..k] == t[..k];
  }

  lemma {:induction false} LiteralShape(d: Dialect, s: string, start: nat, i: nat, depth: nat)
    requires start < i <= |s| && depth >= 1 && LiteralPrefix(s[start..i], depth)
    ensures Literal(d, s, start, i, depth).Done? ==> WellShaped(d, s, Literal(d, s, start, i, depth).lexemes)
    decreases |s| - i, 1
  {
    if i < |s| {
      var c := s[i];
      if Class(d, c) == Close && depth == 1 {
        LiteralEnd(d, s, start, i);
      } else {
        var depth' := depth + Delta(c);
        assert s[start..i + 1] == s[start..i] + [c];
        LiteralGrow(s[start..i], depth, c);
        LiteralShape(d, s, start, i + 1, depth');
        assert Literal(d, s, start, i, depth) == Literal(d, s, start, i + 1, depth');
      }
    }
  }

  /** The ')' that closes a literal: the literal is pushed in front of
      the reading of the rest. */
  lemma {:induction false} LiteralEnd(d: Dialect, s: string, start: nat, i: nat)
    requires start < i < |s| && Class(d, s[i]) == Close && LiteralPrefix(s[start..i], 1)
    ensures Literal(d, s, start, i, 1).Done? ==> WellShaped(d, s, Literal(d, s, start, i, 1).lexemes)
    decreases |s| - i, 0
  {
    var x := Lexeme(start, i + 1, i);
    assert Literal(d, s, start, i, 1) == Prepend(x, Lex(d, s, i + 1, false));
    LexShape(d, s, i + 1, false);
    assert Text(s, x) == s[start..i] + [')'] by {
      assert s[start..i + 1] == s[start..i] + [s[i]];
    }
    LiteralClose(s[start..i]);
    PrependShaped(d, s, x, Lex(d, s, i + 1, false));
  }

  /** The result of a tokenizer for a reading: the tokens, or
      `UnbalancedString`, which the current tokenizer places at the end of
      the text and the draft does not place. */
  function Emit(d: Dialect, s: string, r: Scan): Result<seq<Token>, ParseError>
  {
    match r
    case Done(l) => Ok(Tokens(d, s, l))
    case Unbalanced =>
      Err(if d.Current? then Locate(Raise(UnbalancedString), Advance(Origin, s)) else Raise(UnbalancedString))
  }

  /* ~~ The machine ~~~~~~~~~~~~~~~~~~~~~~~~~~~~~~~~~~~~~~~~~~~~~~~~~~~~~~ */

  /** What the machine's variables promise at the top of iteration `i`. */
  predicate Consistent(i: nat, state: State, start: nat, parens: int) {
    start <= i &&
    (state == Operator ==> 1 <= i) &&
    (state == NumOrType ==> start < i) &&
    (state == String ==> start < i && parens >= 1) &&
    state != End
  }

  /** The part of the reading still to come at the top of iteration `i`,
      given the previous state: an operator read but not yet emitted, a
      word or string literal under way, a comment, or plain text. */
  function Pending(d: Dialect, s: string, i: nat, state: State, start: nat, parens: int): Scan
    requires i <= |s| && Consistent(i, state, start, parens)
  {
    match state
    case LineStart => Lex(d, s, i, true)
    case Comment => SkipComment(d, s, i)
    case Operator =>
      Prepend(Lexeme(i - 1, i, i), if Stops(d, s, i - 1) then Done([]) else Lex(d, s, i, false))
    case NumOrType => Word(d, s, start, i)
    case String => Literal(d, s, start, i, parens)
    case _ => Lex(d, s, i, false)
  }

  lemma AppendPrepend(xs: seq<Lexeme>, x: Lexeme, r: Scan)
    ensures Append(xs, Prepend(x, r)) == Append(xs + [x], r)
  {
    if r.Done? {
      assert xs + ([x] + r.lexemes) == xs + [x] + r.lexemes;
    }
  }

  lemma TokensSnoc(d: Dialect, s: string, l: seq<Lexeme>, x: Lexeme)
    ensures Tokens(d, s, l + [x]) == Tokens(d, s, l) + [TokenAt(d, s, x)]
  {
    assert (l + [x])[..|l|] == l;
  }

  lemma {:induction false} TokensAppend(d: Dialect, s: string, l: seq<Lexeme>, m: seq<Lexeme>)
    ensures Tokens(d, s, l + m) == Tokens(d, s, l) + Tokens(d, s, m)
    decreases |m|
  {
    if m != [] {
      var m' := m[..|m| - 1];
      assert l + m == (l + m') + [m[|m| - 1]];
      TokensSnoc(d, s, l + m', m[|m| - 1]);
      TokensSnoc(d, s, m', m[|m| - 1]);
      assert m' + [m[|m| - 1]] == m;
      TokensAppend(d, s, l, m');
      var t := [TokenAt(d, s, m[|m| - 1])];
      assert Tokens(d, s, l) + Tokens(d, s, m') + t == Tokens(d, s, l) + (Tokens(d, s, m') + t);
    } else {
      assert l + m == l;
    }
  }

  lemma AppendAppend(xs: seq<Lexeme>, ys: seq<Lexeme>, r: Scan)
    ensures Append(xs, Append(ys, r)) == Append(xs + ys, r)
  {
    if r.Done? {
      assert xs + (ys + r.lexemes) == xs + ys + r.lexemes;
    }
  }

  /** How an iteration ends: on to the next character, returning the
      tokens so far, or failing on an open string literal. */
  datatype Outcome = Continue | Return | Fail

  /** The effect of one iteration: the lexemes emitted, the new state, the
      new token start and depth, and how the iteration ends. */
  datatype Effect = Effect(op: seq<Lexeme>, word: seq<Lexeme>, str: seq<Lexeme>,
                           next: State, start: nat, parens: int, outcome: Outcome)
  {
    function Pushed(): seq<Lexeme> { op + (word + str) }
  }

  /** What iteration `i` does once the new state `next` and depth `parens`
      are known. At most one token is emitted: the pending operator, the
      word the change of state ends, or the string literal it closes. */
  function Emitted(d: Dialect, s: string, i: nat, prev: State, next: State, start: nat, parens: int): Effect
    requires i <= |s| && (prev == Operator ==> 1 <= i)
  {
    Effect(
      if prev == Operator then [Lexeme(i - 1, i, i)] else [],
      if prev != next && prev == NumOrType then [Lexeme(start, i, i)] else [],
      if prev != next && next == StringEnd then [Lexeme(start, i + 1, i)] else [],
      next,
      if prev != next && (next == NumOrType || next == String) then i else start,
      if prev != next && next == String then 1 else parens,
      if prev == Operator && Stops(d, s, i - 1) then Return
      else if prev == String && next == End then Fail
      else Continue)
  }

  /** One iteration of the machine at index `i` after state `prev`: the
      transition (to `End` past the last character), then its emission. */
  function Step(d: Dialect, s: string, i: nat, prev: State, start: nat, parens: int): Effect
    requires i <= |s| && Consistent(i, prev, start, parens)
  {
    if i == |s| then Emitted(d, s, i, prev, End, start, parens)
    else
      var t := Transition(d, prev, s[i], parens);
      Emitted(d, s, i, prev, t.0, start, t.1)
  }

  /** Iteration `i` follows the reference reading: what it emits, followed
      by what is pending afterwards, is what was pending before. */
  predicate Follows(d: Dialect, s: string, i: nat, prev: State, start: nat, parens: int)
    requires i <= |s| && Consistent(i, prev, start, parens)
  {
    var e := Step(d, s, i, prev, start, parens);
    var before := Pending(d, s, i, prev, start, parens);
    match e.outcome
    case Return => before == Done(e.Pushed())
    case Fail => before == Unbalanced
    case Continue =>
      if i == |s| then before == Done(e.Pushed())
      else
        Consistent(i + 1, e.next, e.start, e.parens) &&
        before == Append(e.Pushed(), Pending(d, s, i + 1, e.next, e.start, e.parens))
  }

  /** Past the last character every state but an open string literal ends
      the reading, after emitting the pending operator or word. */
  lemma FollowsAtEnd(d: Dialect, s: string, prev: State, start: nat, parens: int)
    requires Consistent(|s|, prev, start, parens)
    ensures Follows(d, s, |s|, prev, start, parens)
  {
    if prev == NumOrType {
      assert Word(d, s, start, |s|) == Prepend(Lexeme(start, |s|, |s|), Lex(d, s, |s|, false));
    }
  }

  /** Outside comments, words and string literals, the reading from `i`
      goes on from the state the character at `i` leads to. */
  lemma LexEnters(d: Dialect, s: string, i: nat, lineStart: bool, start: nat, parens: int)
    requires i < |s| && start <= i
    requires !(lineStart && Class(d, s[i]) == Percent)
    ensures var n := Transition(d, Space, s[i], parens).0;
      var start' := if n == NumOrType || n == String then i else start;
      var parens' := if n == String then 1 else parens;
      n !in {StringEnd, End, Comment} && Consistent(i + 1, n, start', parens') &&
      Lex(d, s, i, lineStart) == Pending(d, s, i + 1, n, start', parens')
  {
  }

  lemma PrependAppend(x: Lexeme, r: Scan)
    ensures Prepend(x, r) == Append([x], r)
  {
  }

  /** From a line start or a blank, the reading goes on as the new state
      says. */
  lemma FollowsOutside(d: Dialect, s: string, i: nat, lineStart: bool, start: nat, parens: int)
    requires i < |s| && start <= i
    ensures Follows(d, s, i, if lineStart then LineStart else Space, start, parens)
  {
    var prev := if lineStart then LineStart else Space;
    var e := Step(d, s, i, prev, start, parens);
    if lineStart && Class(d, s[i]) == Percent {
      assert e.next == Comment && e.Pushed() == [];
    } else {
      LexEnters(d, s, i, lineStart, start, parens);
      assert e.next == Transition(d, Space, s[i], parens).0;
      assert e.op == [] && e.word == [] && e.str == [];
    }
  }

  lemma FollowsStringEnd(d: Dialect, s: string, i: nat, start: nat, parens: int)
    requires i < |s| && start <= i
    ensures Follows(d, s, i, StringEnd, start, parens)
  {
    var e := Step(d, s, i, StringEnd, start, parens);
    LexEnters(d, s, i, false, start, parens);
    assert e.next == Transition(d, Space, s[i], parens).0;
    assert e.op == [] && e.word == [] && e.str == [];
  }

  lemma FollowsOperator(d: Dialect, s: string, i: nat, start: nat, parens: int)
    requires 1 <= i < |s| && start <= i
    ensures Follows(d, s, i, Operator, start, parens)
  {
    var e := Step(d, s, i, Operator, start, parens);
    assert e.op == [Lexeme(i - 1, i, i)] && e.word == [] && e.str == [];
    if !Stops(d, s, i - 1) {
      LexEnters(d, s, i, false, start, parens);
      assert e.next == Transition(d, Space, s[i], parens).0;
      PrependAppend(Lexeme(i - 1, i, i), Lex(d, s, i, false));
    }
  }

  lemma FollowsComment(d: Dialect, s: string, i: nat, start: nat, parens: int)
    requires i < |s| && start <= i
    ensures Follows(d, s, i, Comment, start, parens)
  {
  }

  lemma FollowsWord(d: Dialect, s: string, i: nat, start: nat, parens: int)
    requires start < i < |s|
    ensures Follows(d, s, i, NumOrType, start, parens)
  {
    var e := Step(d, s, i, NumOrType, start, parens);
    if Delimits(d, s[i]) {
      LexEnters(d, s, i, false, start, parens);
      assert e.next == Transition(d, Space, s[i], parens).0;
      assert e.op == [] && e.word == [Lexeme(start, i, i)] && e.str == [];
      PrependAppend(Lexeme(start, i, i), Lex(d, s, i, false));
    } else {
      assert e.next == NumOrType && e.Pushed() == [];
    }
  }

  lemma FollowsLiteral(d: Dialect, s: string, i: nat, start: nat, parens: int)
    requires start < i < |s| && parens >= 1
    ensures Follows(d, s, i, String, start, parens)
  {
    var e := Step(d, s, i, String, start, parens);
    var k := Class(d, s[i]);
    if k == Open {
      assert e.next == String && e.parens == parens + 1 && e.Pushed() == [];
    } else if k == Close && parens == 1 {
      assert e.next == StringEnd && e.Pushed() == [Lexeme(start, i + 1, i)];
      PrependAppend(Lexeme(start, i + 1, i), Lex(d, s, i + 1, false));
    } else if k == Close {
      assert e.next == String && e.parens == parens - 1 && e.Pushed() == [];
    } else {
      assert e.next == String && e.parens == parens && e.Pushed() == [];
    }
  }

  /** Every iteration follows the reference reading. */
  lemma StepSound(d: Dialect, s: string, i: nat, prev: State, start: nat, parens: int)
    requires i <= |s| && Consistent(i, prev, start, parens)
    ensures Follows(d, s, i, prev, start, parens)
  {
    if i == |s| {
      FollowsAtEnd(d, s, prev, start, parens);
    } else {
      match prev
      case LineStart => FollowsOutside(d, s, i, true, start, parens);
      case Space => FollowsOutside(d, s, i, false, start, parens);
      case StringEnd => FollowsStringEnd(d, s, i, start, parens);
      case Operator => FollowsOperator(d, s, i, start, parens);
      case Comment => FollowsComment(d, s, i, start, parens);
      case NumOrType => FollowsWord(d, s, i, start, parens);
      case String => FollowsLiteral(d, s, i, start, parens);
    }
  }

  lemma AdvanceSnoc(s: string, i: nat)
    requires i < |s|
    ensures Advance(Origin, s[..i + 1]) == Advance(Origin, s[..i]).NextChar(s[i])
  {
    assert s[..i + 1][..i] == s[..i];
  }

  /** The machine from iteration `i` on: what it emits until it returns,
      fails, or passes the end of the text. */
  ghost function Run(d: Dialect, s: string, i: nat, prev: State, start: nat, parens: int): Scan
    requires i <= |s| && Consistent(i, prev, start, parens)
    decreases |s| - i
  {
    var e := Step(d, s, i, prev, start, parens);
    match e.outcome
    case Return => Done(e.Pushed())
    case Fail => Unbalanced
    case Continue =>
      if i == |s| then Done(e.Pushed())
      else Append(e.Pushed(), Run(d, s, i + 1, e.next, e.start, e.parens))
  }

  /** The machine computes the reference reading of what is pending. */
  lemma {:induction false} RunPending(d: Dialect, s: string, i: nat, prev: State, start: nat, parens: int)
    requires i <= |s| && Consistent(i, prev, start, parens)
    ensures Run(d, s, i, prev, start, parens) == Pending(d, s, i, prev, start, parens)
    decreases |s| - i
  {
    StepSound(d, s, i, prev, start, parens);
    var e := Step(d, s, i, prev, start, parens);
    if e.outcome == Continue && i < |s| {
      RunPending(d, s, i + 1, e.next, e.start, e.parens);
    }
  }

  /** The loop invariant of the tokenizers survives iteration `i`, whose
      transition leads to `next` with depth `depth`. */
  lemma RunInvariant(d: Dialect, s: string, i: nat, prev: State, start: nat, parens: int,
                     next: State, depth: int, whole: Scan, before: seq<Lexeme>)
    requires i <= |s| && Consistent(i, prev, start, parens)
    requires (next, depth) == if i == |s| then (End, parens) else Transition(d, prev, s[i], parens)
    requires whole == Append(before, Run(d, s, i, prev, start, parens))
    ensures var e := Emitted(d, s, i, prev, next, start, depth);
      e.outcome == Continue ==>
        (i < |s| ==>
          Consistent(i + 1, e.next, e.start, e.parens) &&
          whole == Append(before + e.Pushed(), Run(d, s, i + 1, e.next, e.start, e.parens))) &&
        (i == |s| ==> whole == Done(before + e.Pushed()))
    ensures var e := Emitted(d, s, i, prev, next, start, depth);
      (e.outcome == Return ==> whole == Done(before + e.Pushed())) &&
      (e.outcome == Fail ==> whole == Unbalanced)
  {
    var e := Step(d, s, i, prev, start, parens);
    assert e == Emitted(d, s, i, prev, next, start, depth);
    if e.outcome == Continue && i < |s| {
      AppendAppend(before, e.Pushed(), Run(d, s, i + 1, e.next, e.start, e.parens));
    }
  }

  /** `resultPush`: appends the token `[i, j)` of the text, with the current
      position (the position of character `at`) in the current tokenizer. */
  method Push(d: Dialect, s: string, i: nat, j: nat, pos: SourcePos, result: seq<Token>, ghost at: nat)
    returns (pushed: seq<Token>)
    requires i <= j <= |s| && at <= |s| && pos == Advance(Origin, s[..at])
    ensures pushed == result + [TokenAt(d, s, Lexeme(i, j, at))]
  {
    pushed := result + [Token(s[i..j], if d.Current? then pos else Unknown)];
  }

  /** The first half of the emission of an iteration: an operator read in
      the previous iteration is pushed, and a ';' ends the tokenizer (the
      operator itself in the current tokenizer, the next character in the
      draft).
      `done` is the reading of the tokens pushed so far. */
  method EmitOperator(d: Dialect, s: string, i: nat, prev: State, pos: SourcePos, result: seq<Token>, ghost done: seq<Lexeme>)
    returns (result': seq<Token>, ghost op: seq<Lexeme>, stop: bool)
    requires i <= |s| && (prev == Operator ==> 1 <= i) && pos == Advance(Origin, s[..i])
    requires result == Tokens(d, s, done)
    ensures op == Emitted(d, s, i, prev, prev, 0, 0).op
    ensures stop <==> prev == Operator && Stops(d, s, i - 1)
    ensures result' == Tokens(d, s, done + op)
  {
    result', op, stop := result, [], false;
    if prev == Operator {
      result' := Push(d, s, i - 1, i, pos, result', i);
      op := [Lexeme(i - 1, i, i)];
      TokensSnoc(d, s, done, Lexeme(i - 1, i, i));
      // The draft tests the character after the operator; past the end of
      // the text that character is taken not to be ';'.
      stop := if d.Current? then s[i - 1] == ';' else i < |s| && s[i] == ';';
    } else {
      assert done + op == done;
    }
  }

  /** The second half: on a change of state, the word it ends or the
      string literal it closes is pushed, a new token may start, and a
      string literal still open at the end of the text is an error. */
  method EmitChange(d: Dialect, s: string, i: nat, prev: State, next: State, start: nat, parens: int,
                    pos: SourcePos, result: seq<Token>, ghost done: seq<Lexeme>)
    returns (start': nat, parens': int, result': seq<Token>, ghost added: seq<Lexeme>, fail: bool)
    requires i <= |s| && start <= i && (prev == Operator ==> 1 <= i) && (next == StringEnd ==> prev == String && i < |s|)
    requires pos == Advance(Origin, s[..i])
    requires result == Tokens(d, s, done)
    ensures var e := Emitted(d, s, i, prev, next, start, parens);
      added == e.word + e.str && start' == e.start && parens' == e.parens
    ensures fail <==> prev == String && next == End
    ensures result' == Tokens(d, s, done + added)
  {
    ghost var e := Emitted(d, s, i, prev, next, start, parens);
    added := e.word + e.str;
    start' := if prev != next && (next == NumOrType || next == String) then i else start;
    parens' := if prev != next && next == String then 1 else parens;
    fail := prev == String && next == End;
    if prev != next && prev == NumOrType {
      assert added == [Lexeme(start, i, i)];
      result' := PushLexeme(d, s, Lexeme(start, i, i), pos, result, done);
    } else if prev != next && next == StringEnd {
      assert added == [Lexeme(start, i + 1, i)];
      result' := PushLexeme(d, s, Lexeme(start, i + 1, i), pos, result, done);
    } else {
      assert added == [] && done + [] == done;
      result' := result;
    }
  }

  /** `Push` of the lexeme `x`, read at the position of its character `at`,
      onto the tokens of `done`. */
  method PushLexeme(d: Dialect, s: string, x: Lexeme, pos: SourcePos, result: seq<Token>, ghost done: seq<Lexeme>)
    returns (result': seq<Token>)
    requires x.start <= x.end <= |s| && x.at <= |s| && pos == Advance(Origin, s[..x.at])
    requires result == Tokens(d, s, done)
    ensures result' == Tokens(d, s, done + [x])
  {
    result' := Push(d, s, x.start, x.end, pos, result, x.at);
    TokensSnoc(d, s, done, x);
  }

  /** The rest of an iteration of `tokenize` once the new state `next` and
      depth `parens` are known: the pending operator, then the change of
      state. */
  method Emission(d: Dialect, s: string, i: nat, prev: State, next: State, start: nat, parens: int,
                  pos: SourcePos, result: seq<Token>, ghost done: seq<Lexeme>)
    returns (start': nat, parens': int, result': seq<Token>, ghost added: seq<Lexeme>, outcome: Outcome)
    requires i <= |s| && start <= i && (prev == Operator ==> 1 <= i) && (next == StringEnd ==> prev == String && i < |s|)
    requires pos == Advance(Origin, s[..i])
    requires result == Tokens(d, s, done)
    ensures var e := Emitted(d, s, i, prev, next, start, parens);
      outcome == e.outcome && added == e.Pushed() &&
      (outcome == Continue ==> start' == e.start && parens' == e.parens)
    ensures result' == Tokens(d, s, done + added)
  {
    ghost var e := Emitted(d, s, i, prev, next, start, parens);
    var stop;
    result', added, stop := EmitOperator(d, s, i, prev, pos, result, done);
    start', parens' := start, parens;
    if stop {
      assert e.word == [] && e.str == [] && added + [] == added;
      return start', parens', result', added, Return;
    }
    var fail;
    ghost var more;
    start', parens', result', more, fail := EmitChange(d, s, i, prev, next, start, parens, pos, result', done + added);
    AppendAssoc(done, added, more);
    added := added + more;
    outcome := if fail then Fail else Continue;
  }

  /** One iteration of `tokenize`'s loop at index `i`: the transition (to
      `End` past the last character), then the emission. `whole` is the
      reading of the text and `done` that of the tokens pushed so far. */
  method Iteration(d: Dialect, s: string, i: nat, prev: State, start: nat, parens: int, pos: SourcePos,
                   result: seq<Token>, ghost whole: Scan, ghost done: seq<Lexeme>)
    returns (next: State, start': nat, parens': int, result': seq<Token>, ghost done': seq<Lexeme>, outcome: Outcome)
    requires i <= |s| && Consistent(i, prev, start, parens)
    requires pos == Advance(Origin, s[..i])
    requires result == Tokens(d, s, done)
    requires whole == Append(done, Run(d, s, i, prev, start, parens))
    ensures result' == Tokens(d, s, done')
    ensures outcome == Return ==> whole == Done(done')
    ensures outcome == Fail ==> whole == Unbalanced && i == |s|
    ensures outcome == Continue && i < |s| ==>
      Consistent(i + 1, next, start', parens') && whole == Append(done', Run(d, s, i + 1, next, start', parens'))
    ensures outcome == Continue && i == |s| ==> whole == Done(done')
  {
    var depth := parens;
    if i == |s| {
      next := End;
    } else {
      var t := Transition(d, prev, s[i], parens);
      next, depth := t.0, t.1;
      assert next != End;
    }
    RunInvariant(d, s, i, prev, start, parens, next, depth, whole, done);
    ghost var added;
    start', parens', result', added, outcome := Emission(d, s, i, prev, next, start, depth, pos, result, done);
    done' := done + added;
  }

  /** `tokenize`: the state machine of src/parsers.cc, which emits each
      token with the position reached at that moment and returns right
      after emitting a ';'. It computes the reference reading. */
  method Tokenize(s: string) returns (r: Result<seq<Token>, ParseError>)
    ensures Lex(Current, s, 0, true).Done? ==> Spans(Lex(Current, s, 0, true).lexemes, 0, |s|)
    ensures r == Emit(Current, s, Lex(Current, s, 0, true))
  {
    LexSpans(Current, s, 0, true);
    RunPending(Current, s, 0, LineStart, 0, 0);
    ghost var whole := Run(Current, s, 0, LineStart, 0, 0);
    var result: seq<Token> := [];
    ghost var lexemes: seq<Lexeme> := [];
    var pos := Origin;
    var prevState, nextState := LineStart, LineStart;
    var tokenStart: nat := 0;
    var parenCount: int := 0;
    var i := 0;
    while i <= |s|
      invariant i <= |s| + 1
      invariant result == Tokens(Current, s, lexemes)
      invariant i <= |s| ==> pos == Advance(Origin, s[..i])
      invariant i <= |s| ==> Consistent(i, prevState, tokenStart, parenCount)
      invariant i <= |s| ==> whole == Append(lexemes, Run(Current, s, i, prevState, tokenStart, parenCount))
      invariant i == |s| + 1 ==> whole == Done(lexemes)
      decreases |s| + 1 - i
    {
      var outcome;
      nextState, tokenStart, parenCount, result, lexemes, outcome :=
        Iteration(Current, s, i, prevState, tokenStart, parenCount, pos, result, whole, lexemes);
      if outcome == Return {
        return Ok(result);
      }
      if outcome == Fail {
        assert s[..i] == s;
        return Err(Locate(Raise(UnbalancedString), pos));
      }
      if i < |s| {
        pos := pos.NextChar(s[i]);
        AdvanceSnoc(s, i);
      }
      i := i + 1;
      prevState := nextState;
    }
    return Ok(result);
  }

  /** `tokenize` as drafted in src/parser.cc: the same machine, with ':'
      an operator too, tokens without positions, an `UnbalancedString`
      without a position, and a return when the character after an
      operator is ';'. It computes the draft's reading. */
  method TokenizeDraft(s: string) returns (r: Result<seq<Token>, ParseError>)
    ensures Lex(Draft, s, 0, true).Done? ==> Spans(Lex(Draft, s, 0, true).lexemes, 0, |s|)
    ensures r == Emit(Draft, s, Lex(Draft, s, 0, true))
  {
    LexSpans(Draft, s, 0, true);
    RunPending(Draft, s, 0, LineStart, 0, 0);
    ghost var whole := Run(Draft, s, 0, LineStart, 0, 0);
    var result: seq<Token> := [];
    ghost var lexemes: seq<Lexeme> := [];
    var pos := Origin;
    var prevState, nextState := LineStart, LineStart;
    var tokenStart: nat := 0;
    var parenCount: int := 0;
    var i := 0;
    while i <= |s|
      invariant i <= |s| + 1
      invariant result == Tokens(Draft, s, lexemes)
      invariant i <= |s| ==> pos == Advance(Origin, s[..i])
      invariant i <= |s| ==> Consistent(i, prevState, tokenStart, parenCount)
      invariant i <= |s| ==> whole == Append(lexemes, Run(Draft, s, i, prevState, tokenStart, parenCount))
      invariant i == |s| + 1 ==> whole == Done(lexemes)
      decreases |s| + 1 - i
    {
      var outcome;
      nextState, tokenStart, parenCount, result, lexemes, outcome :=
        Iteration(Draft, s, i, prevState, tokenStart, parenCount, pos, result, whole, lexemes);
      if outcome == Return {
        return Ok(result);
      }
      if outcome == Fail {
        return Err(Raise(UnbalancedString));
      }
      if i < |s| {
        pos := pos.NextChar(s[i]);
        AdvanceSnoc(s, i);
      }
      i := i + 1;
      prevState := nextState;
    }
    return Ok(result);
  }

  /* ~~ Properties of the reading ~~~~~~~~~~~~~~~~~~~~~~~~~~~~~~~~~~~~~~~~ */

  lemma {:induction false} TokensAt(d: Dialect, s: string, l: seq<Lexeme>, k: nat)
    requires k < |l|
    ensures Tokens(d, s, l)[k] == TokenAt(d, s, l[k])
  {
    if k < |l| - 1 {
      TokensAt(d, s, l[..|l| - 1], k);
    }
  }

  /** The tokens of a successful tokenizer are operators, words and
      balanced string literals; in the current tokenizer only the last can
      be ";". */
  lemma TokenizeShaped(d: Dialect, s: string)
    ensures var r := Emit(d, s, Lex(d, s, 0, true));
      r.Ok? ==>
        (forall k :: 0 <= k < |r.value| ==> Shaped(d, r.value[k].text)) &&
        (d.Current? ==> forall k :: 0 <= k < |r.value| - 1 ==> r.value[k].text != ";")
  {
    LexShape(d, s, 0, true);
    var l := Lex(d, s, 0, true);
    if l.Done? {
      forall k | 0 <= k < |l.lexemes|
        ensures Tokens(d, s, l.lexemes)[k].text == Text(s, l.lexemes[k])
      {
        TokensAt(d, s, l.lexemes, k);
      }
    }
  }

  /** A comment reads nothing up to the end of its line. */
  lemma {:induction false} SkipCommentLine(d: Dialect, s: string, i: nat, j: nat)
    requires i <= j <= |s|
    requires forall k :: i <= k < j ==> Class(d, s[k]) != Newline
    ensures SkipComment(d, s, i) == SkipComment(d, s, j)
    decreases j - i
  {
    if i < j {
      SkipCommentLine(d, s, i + 1, j);
    }
  }

  /** A '%' at the start of a line comments out the rest of the line: the
      reading resumes at the start of the next line, and a comment on the
      last line ends the reading. */
  lemma CommentIgnored(d: Dialect, s: string, i: nat, j: nat)
    requires i < j <= |s| && s[i] == '%'
    requires forall k :: i < k < j ==> Class(d, s[k]) != Newline
    ensures j < |s| && Class(d, s[j]) == Newline ==> Lex(d, s, i, true) == Lex(d, s, j + 1, true)
    ensures j == |s| ==> Lex(d, s, i, true) == Done([])
  {
    SkipCommentLine(d, s, i + 1, j);
  }

  /** A string literal with no ')' after it never closes. */
  lemma {:induction false} LiteralUnclosed(d: Dialect, s: string, start: nat, i: nat, depth: nat)
    requires start < i <= |s| && depth >= 1
    requires forall k :: i <= k < |s| ==> s[k] != ')'
    ensures Literal(d, s, start, i, depth) == Unbalanced
    decreases |s| - i
  {
    if i < |s| {
      LiteralUnclosed(d, s, start, i + 1, if Class(d, s[i]) == Open then depth + 1 else depth);
    }
  }

  /** A '(' read as the start of a string literal with no ')' after it
      makes either tokenizer fail with `UnbalancedString`, which the
      current one places at the end of the text. */
  lemma UnclosedFails(d: Dialect, s: string, i: nat, lineStart: bool)
    requires i < |s| && s[i] == '('
    requires forall k :: i < k < |s| ==> s[k] != ')'
    ensures Lex(d, s, i, lineStart) == Unbalanced
    ensures d.Current? ==> Emit(d, s, Unbalanced) == Err(Locate(Raise(UnbalancedString), Advance(Origin, s)))
    ensures d.Draft? ==> Emit(d, s, Unbalanced).error.pos == Unknown
  {
    LiteralUnclosed(d, s, i, i + 1, 1);
  }

  /** The draft tokenizer tests the character after an operator for ';'
      instead of the operator itself: an operator followed by ';' ends the
      reading and the ';' is lost, ... */
  lemma DraftDropsSemicolon()
    ensures Lex(Draft, "];", 0, true) == Done([Lexeme(0, 1, 1)])
    ensures Text("];", Lexeme(0, 1, 1)) == "]"
  {
    assert Class(Draft, ']') == Op && Stops(Draft, "];", 0);
  }

  /** ... while a ';' followed by more text does not end it. */
  lemma DraftReadsPastSemicolon()
    ensures Lex(Draft, "a;b", 0, true) == Done([Lexeme(0, 1, 1), Lexeme(1, 2, 2), Lexeme(2, 3, 3)])
    ensures Text("a;b", Lexeme(1, 2, 2)) == ";"
  {
    var s := "a;b";
    assert Class(Draft, 'a') == Other && Class(Draft, ';') == Op && Class(Draft, 'b') == Other;
    assert !Stops(Draft, s, 1);
    assert Lex(Draft, s, 3, false) == Done([]);
    assert Word(Draft, s, 2, 3) == Done([Lexeme(2, 3, 3)]);
    assert Lex(Draft, s, 2, false) == Done([Lexeme(2, 3, 3)]);
    assert Lex(Draft, s, 1, false) == Done([Lexeme(1, 2, 2), Lexeme(2, 3, 3)]);
    assert Word(Draft, s, 0, 1) == Prepend(Lexeme(0, 1, 1), Lex(Draft, s, 1, false));
  }

  /** The current tokenizer returns right after the ';' it pushes. */
  lemma CurrentKeepsSemicolon()
    ensures Lex(Current, "];", 0, true) == Done([Lexeme(0, 1, 1), Lexeme(1, 2, 2)])
    ensures Lex(Current, "a;b", 0, true) == Done([Lexeme(0, 1, 1), Lexeme(1, 2, 2)])
  {
    assert Class(Current, ']') == Op && !Stops(Current, "];", 0) && Stops(Current, "];", 1);
    assert Class(Current, ';') == Op && Class(Current, 'a') == Other;
    assert Stops(Current, "a;b", 1);
    assert Lex(Current, "a;b", 1, false) == Done([Lexeme(1, 2, 2)]);
  }
}
