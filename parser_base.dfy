/**
 * `ParserBase` (src/parserBase.hh): the vocabulary every parser shares.
 * Error tags, source positions, tokens, errors that keep the first
 * position they are given, the whitespace classes, and the integer and
 * decimal literal readers built on the base-10 numeral codec.
 */
module ParserBase {
  import opened Results
  import opened Util
  import opened Arith
  import Numeral

  /** `ErrorType`, together with `MalformedNumberTuple`, which the parsers
      raise although the enumeration does not list it. */
  datatype ErrorType =
    | EmptyFile | UnbalancedString | MissingSemicolon | MissingString
    | EmptyElement | UnknownElementType | UnknownModifierType
    | ElementBrushSize
    | MissingBracketLeft | MissingBracketRight
    | MismatchingParens | AtomSize | StrokeLength | ForeignDigit
    | ModAffineSize | MalformedModAffine
    | ModArraySize | MalformedModArray
    | ModUppercaseSize | MalformedModUppercase
    | TickmarkOrdering | SignCharacter | NumberSize | NumberError
    | MalformedNumberTuple

  /* ~~ Source positions ~~~~~~~~~~~~~~~~~~~~~~~~~~~~~~~~~~~~~~~~~~~~~~~~ */

  /** `SourcePos`: a 1-based row and column, `(0, 0)` when unknown. The
      struct is a value, copied into every token, so its two mutating
      members are functions returning the advanced position. */
  datatype SourcePos = SourcePos(row: nat, col: nat) {
    /** `next()`: one column on. */
    function Next(): SourcePos {
      SourcePos(row, col + 1)
    }

    /** `next(c)`: a line feed moves to the next row at column 0; every
        other character, a carriage return included, moves one column on. */
    function NextChar(c: char): SourcePos {
      if c == '\n' then SourcePos(row + 1, 0) else SourcePos(row, col + 1)
    }
  }

  /** `SourcePos_unknown`. */
  const Unknown := SourcePos(0, 0)

  /** The position after `next(c)` for every character of `s` in turn. */
  function Advance(p: SourcePos, s: string): SourcePos {
    if s == [] then p else Advance(p, s[..|s| - 1]).NextChar(s[|s| - 1])
  }

  /** `ranges::count(s, c)`. */
  function Count(s: string, c: char): (n: nat)
    ensures n <= |s|
    ensures n == 0 <==> c !in s
  {
    if s == [] then 0 else (if s[0] == c then 1 else 0) + Count(s[1..], c)
  }

  lemma {:induction false} CountAppend(a: string, b: string, c: char)
    ensures Count(a + b, c) == Count(a, c) + Count(b, c)
    decreases |a|
  {
    if a != [] {
      assert (a + b)[1..] == a[1..] + b;
      CountAppend(a[1..], b, c);
    } else {
      assert a + b == b;
    }
  }

  lemma {:induction false} AdvanceAppend(p: SourcePos, a: string, b: string)
    ensures Advance(p, a + b) == Advance(Advance(p, a), b)
    decreases |b|
  {
    if b == [] {
      assert a + b == a;
    } else {
      var init := b[..|b| - 1];
      assert (a + b)[..|a + b| - 1] == a + init;
      AdvanceAppend(p, a, init);
    }
  }

  /** Within a line, each character moves one column on. */
  lemma {:induction false} AdvanceWithinLine(p: SourcePos, s: string)
    requires '\n' !in s
    ensures Advance(p, s) == SourcePos(p.row, p.col + |s|)
    decreases |s|
  {
    if s != [] {
      assert '\n' !in s[..|s| - 1];
      AdvanceWithinLine(p, s[..|s| - 1]);
    }
  }

  /** Every line feed adds one row; the column then counts the characters
      after the last line feed, starting from 0. */
  lemma AdvanceRows(p: SourcePos, s: string, rest: string)
    requires '\n' !in rest
    ensures Advance(p, s + "\n" + rest) == SourcePos(Advance(p, s).row + 1, |rest|)
  {
    AdvanceAppend(p, s + "\n", rest);
    assert (s + "\n")[..|s|] == s;
    AdvanceWithinLine(Advance(p, s + "\n"), rest);
  }

  /** The row advances by the number of line feeds read. */
  lemma {:induction false} AdvanceRowCount(p: SourcePos, s: string)
    ensures Advance(p, s).row == p.row + Count(s, '\n')
    decreases |s|
  {
    if s != [] {
      var init := s[..|s| - 1];
      assert s == init + [s[|s| - 1]];
      CountAppend(init, [s[|s| - 1]], '\n');
      AdvanceRowCount(p, init);
    }
  }

  /* ~~ Tokens ~~~~~~~~~~~~~~~~~~~~~~~~~~~~~~~~~~~~~~~~~~~~~~~~~~~~~~~~~~~ */

  /** `Token`: a piece of the source text and the position recorded for it. */
  datatype Token = Token(text: string, pos: SourcePos)

  /** `Token::operator==`: the texts alone are compared. */
  predicate SameText(a: Token, b: Token) {
    a.text == b.text
  }

  /** The three-way comparison of `std::string_view`: character by
      character, a proper prefix first. */
  function LexCompare(a: string, b: string): (r: int)
    ensures -1 <= r <= 1
  {
    if a == [] then (if b == [] then 0 else -1)
    else if b == [] then 1
    else if a[0] < b[0] then -1
    else if b[0] < a[0] then 1
    else LexCompare(a[1..], b[1..])
  }

  /** `Token::operator<=>`: the order of the texts alone. */
  function Compare(a: Token, b: Token): int {
    LexCompare(a.text, b.text)
  }

  lemma {:induction false} LexCompareZero(a: string, b: string)
    ensures LexCompare(a, b) == 0 <==> a == b
    decreases |a|
  {
    if a != [] && b != [] && a[0] == b[0] {
      LexCompareZero(a[1..], b[1..]);
      if a[1..] == b[1..] {
        assert a == [a[0]] + a[1..] && b == [b[0]] + b[1..];
      }
    }
  }

  lemma {:induction false} LexCompareFlip(a: string, b: string)
    ensures LexCompare(b, a) == -LexCompare(a, b)
    decreases |a|
  {
    if a != [] && b != [] && a[0] == b[0] {
      LexCompareFlip(a[1..], b[1..]);
    }
  }

  lemma {:induction false} LexCompareTransitive(a: string, b: string, c: string)
    requires LexCompare(a, b) < 0 && LexCompare(b, c) < 0
    ensures LexCompare(a, c) < 0
    decreases |a|
  {
    if a != [] && b != [] && c != [] && a[0] == b[0] && b[0] == c[0] {
      LexCompareTransitive(a[1..], b[1..], c[1..]);
    }
  }

  /** Tokens compare by their text alone: equality and the order agree, the
      order is a strict total order on texts, and positions never matter. */
  lemma TokenOrder(a: Token, b: Token, c: Token, p: SourcePos, q: SourcePos)
    ensures Compare(a, b) == 0 <==> SameText(a, b)
    ensures Compare(b, a) == -Compare(a, b)
    ensures Compare(a, b) < 0 && Compare(b, c) < 0 ==> Compare(a, c) < 0
    ensures Compare(a.(pos := p), b.(pos := q)) == Compare(a, b)
    ensures SameText(a.(pos := p), b.(pos := q)) == SameText(a, b)
  {
    LexCompareZero(a.text, b.text);
    LexCompareFlip(a.text, b.text);
    if Compare(a, b) < 0 && Compare(b, c) < 0 {
      LexCompareTransitive(a.text, b.text, c.text);
    }
  }

  /* ~~ Errors ~~~~~~~~~~~~~~~~~~~~~~~~~~~~~~~~~~~~~~~~~~~~~~~~~~~~~~~~~~~ */

  /** `ParseError`: a tag and the position it belongs to, unknown until set. */
  datatype ParseError = ParseError(kind: ErrorType, pos: SourcePos)

  /** `ParseError {t}` and `Unexpected(t)`: a new error without a position. */
  function Raise(t: ErrorType): ParseError {
    ParseError(t, Unknown)
  }

  /** `Unexpected(e, pos)` and `Unexpected(e, tkn)`: the error takes the
      position only when it has none yet. */
  function Locate(e: ParseError, p: SourcePos): ParseError {
    if e.pos == Unknown then e.(pos := p) else e
  }

  /** The tag never changes, and the first known position wins: once an
      error has a position, later fill-ins leave it alone. */
  lemma LocateFirstWins(e: ParseError, p: SourcePos, q: SourcePos)
    ensures Locate(e, p).kind == e.kind
    ensures e.pos != Unknown ==> Locate(e, p) == e
    ensures e.pos == Unknown ==> Locate(e, p).pos == p
    ensures p != Unknown ==> Locate(Locate(e, p), q) == Locate(e, p)
    ensures Locate(Raise(e.kind), p) == ParseError(e.kind, p)
  {
  }

  /** `errorFrom<Base>`: the codec's `ForeignDigit` stays `ForeignDigit`,
      its `StringSize` becomes `NumberSize`. The codec has no third error,
      so the fall-back `NumberError` is never produced. */
  function ErrorFrom(e: Numeral.CodecError): (t: ErrorType)
    ensures t == ForeignDigit || t == NumberSize
    ensures t == ForeignDigit <==> e.ForeignDigit?
  {
    if e.ForeignDigit? then ForeignDigit else NumberSize
  }

  /* ~~ Character classes ~~~~~~~~~~~~~~~~~~~~~~~~~~~~~~~~~~~~~~~~~~~~~~~~ */

  /** `isWhitespace`: `isAny(c, " \t\n\r")`. */
  predicate IsWhitespace(c: char) {
    IsAny(c, [Span(" \t\n\r")])
  }

  /** `isNewline`: `isAny(c, "\n\r")`. */
  predicate IsNewline(c: char) {
    IsAny(c, [Span("\n\r")])
  }

  lemma CharClasses(c: char)
    ensures IsWhitespace(c) <==> c == ' ' || c == '\t' || c == '\n' || c == '\r'
    ensures IsNewline(c) <==> c == '\n' || c == '\r'
    ensures IsNewline(c) ==> IsWhitespace(c)
  {
    IsAnyOneSpan(c, " \t\n\r");
    IsAnyOneSpan(c, "\n\r");
  }

  /* ~~ Integer literals: integerParse<T> ~~~~~~~~~~~~~~~~~~~~~~~~~~~~~~~~~ */

  /** `isAny(str[0], "+-")`. The source reads `str[0]` even of an empty
      text; here an empty text has no sign. */
  predicate HasSign(s: string) {
    |s| > 0 && IsAny(s[0], [Span("+-")])
  }

  function SignOf(s: string): int {
    if HasSign(s) then (if s[0] == '+' then 1 else -1) else 1
  }

  /** The text after `remove_prefix(1)` of a sign. */
  function Unsigned(s: string): string {
    if HasSign(s) then s[1..] else s
  }

  lemma SignChars(s: string)
    ensures HasSign(s) <==> |s| > 0 && (s[0] == '+' || s[0] == '-')
  {
    if |s| > 0 {
      IsAnyOneSpan(s[0], "+-");
    }
  }

  /** The conversion of `sign * result` back to the unsigned `T`: modulo
      `2^bits`. */
  function Wrap(x: int, bits: nat): nat {
    x % Pow(2, bits)
  }

  /** `integerParse<T>` for an unsigned `T`: an optional sign, the
      variable-width base-10 digit parse of the rest, and the sign applied
      modulo `2^bits`. */
  function IntegerParse(t: Numeral.IntType, s: string): Result<nat, ParseError>
    requires t.Integral? && !t.signed
  {
    Numeral.Base10Valid();
    match Numeral.DecodeN(Numeral.Base10, t, Unsigned(s))
    case Err(e) => Err(Raise(ErrorFrom(e)))
    case Ok(v) => Ok(Wrap(SignOf(s) * v, t.bits))
  }

  /** A digit string carries no sign; a `+` or `-` in front of it is one. */
  lemma Prefixed(s: string)
    ensures HasSign("+" + s) && Unsigned("+" + s) == s && SignOf("+" + s) == 1
    ensures HasSign("-" + s) && Unsigned("-" + s) == s && SignOf("-" + s) == -1
  {
    SignChars("+" + s);
    SignChars("-" + s);
    assert ("+" + s)[1..] == s && ("-" + s)[1..] == s;
  }

  lemma SignForms(s: string)
    requires Numeral.AllDigits(Numeral.Base10, s)
    ensures !HasSign(s) && Unsigned(s) == s && SignOf(s) == 1
    ensures HasSign("+" + s) && Unsigned("+" + s) == s && SignOf("+" + s) == 1
    ensures HasSign("-" + s) && Unsigned("-" + s) == s && SignOf("-" + s) == -1
  {
    SignChars(s);
    Prefixed(s);
    if |s| > 0 {
      DigitChar(s[0]);
    }
  }

  /** Below the modulus, wrapping leaves a value alone and negates it into
      the complement. */
  lemma WrapSmall(v: nat, bits: nat)
    requires v < Pow(2, bits)
    ensures Wrap(v, bits) == v
    ensures Wrap(-(v as int), bits) == if v == 0 then 0 else Pow(2, bits) - v
  {
    var m := Pow(2, bits);
    DivModUnique(v, m, 0, v);
    if v > 0 {
      DivModUnique(-(v as int), m, -1, m - v);
    }
  }

  /** A base-10 digit string that fits is read as its value. */
  lemma DecodeNDigits(t: Numeral.IntType, s: string)
    requires Numeral.AllDigits(Numeral.Base10, s) && |s| <= Numeral.MaxDigits(10, t)
    ensures Numeral.Base10.Valid()
    ensures Numeral.DecodeN(Numeral.Base10, t, s) == Ok(Numeral.Fold(Numeral.Base10, s))
    ensures Numeral.Fold(Numeral.Base10, s) <= Numeral.UnsignedMax(t)
  {
    Numeral.Base10Valid();
    Numeral.DecodeNFits(Numeral.Base10, t, s);
  }

  lemma IntegerParseOk(t: Numeral.IntType, s: string, v: nat)
    requires t.Integral? && !t.signed && Numeral.Base10.Valid()
    requires Numeral.DecodeN(Numeral.Base10, t, Unsigned(s)) == Ok(v)
    ensures IntegerParse(t, s) == Ok(Wrap(SignOf(s) * v, t.bits))
  {
  }

  /** A digit string that fits is read as its value, with or without a
      `+` in front. */
  lemma IntegerParseDigits(t: Numeral.IntType, s: string)
    requires t.Integral? && !t.signed
    requires Numeral.AllDigits(Numeral.Base10, s) && |s| <= Numeral.MaxDigits(10, t)
    ensures IntegerParse(t, s) == Ok(Numeral.Fold(Numeral.Base10, s))
    ensures IntegerParse(t, "+" + s) == Ok(Numeral.Fold(Numeral.Base10, s))
  {
    var v := Numeral.Fold(Numeral.Base10, s);
    DecodeNDigits(t, s);
    SignForms(s);
    WrapSmall(v, t.bits);
    IntegerParseOk(t, s, v);
    IntegerParseOk(t, "+" + s, v);
    assert SignOf(s) * v == v && SignOf("+" + s) * v == v;
  }

  /** With a `-` in front, the value is negated modulo `2^bits`: the two
      add up to `2^bits`, or both are 0. */
  lemma IntegerParseNegative(t: Numeral.IntType, s: string)
    requires t.Integral? && !t.signed
    requires Numeral.AllDigits(Numeral.Base10, s) && |s| <= Numeral.MaxDigits(10, t)
    ensures var v := Numeral.Fold(Numeral.Base10, s);
      IntegerParse(t, "-" + s).Ok? &&
      IntegerParse(t, "-" + s).value + v == if v == 0 then 0 else Pow(2, t.bits)
  {
    var v := Numeral.Fold(Numeral.Base10, s);
    DecodeNDigits(t, s);
    SignForms(s);
    WrapSmall(v, t.bits);
    IntegerParseOk(t, "-" + s, v);
    assert SignOf("-" + s) * v == -(v as int);
  }

  /** Without a sign, `integerParse` is the digit parse with its error
      mapped. */
  lemma IntegerParseUnsignedText(t: Numeral.IntType, s: string)
    requires t.Integral? && !t.signed && !HasSign(s)
    ensures Numeral.Base10.Valid()
    ensures IntegerParse(t, s) ==
      match Numeral.DecodeN(Numeral.Base10, t, s)
      case Err(e) => Err(Raise(ErrorFrom(e)))
      case Ok(v) => Ok(v)
  {
    Numeral.Base10Valid();
    Numeral.DecodeNFits(Numeral.Base10, t, s);
    if Numeral.DecodeN(Numeral.Base10, t, s).Ok? {
      var v := Numeral.DecodeN(Numeral.Base10, t, s).value;
      WrapSmall(v, t.bits);
      assert SignOf(s) * v == v;
    }
  }

  /** `integerParse` reads back what `toString_n` prints in base 10, up to
      the digit bound of `T`; a longer print is `NumberSize`. */
  lemma IntegerParseEncodeN(t: Numeral.IntType, x: nat)
    requires t.Integral? && !t.signed && Numeral.MaxDigits(10, t) >= 1
    ensures IntegerParse(t, Numeral.EncodeN(Numeral.Base10, x)) ==
      if x < Pow(10, Numeral.MaxDigits(10, t)) then Ok(x) else Err(Raise(NumberSize))
  {
    Numeral.Base10Valid();
    var s := Numeral.EncodeN(Numeral.Base10, x);
    assert !HasSign(s) by {
      Numeral.EncodeNDigits(Numeral.Base10, x);
      SignForms(s);
    }
    IntegerParseUnsignedText(t, s);
    Numeral.DecodeNEncodeN(Numeral.Base10, t, x);
  }

  /** The errors of `integerParse`: a sign alone reads as 0; otherwise
      every error is the mapped codec error, still without a position. */
  lemma IntegerParseErrors(t: Numeral.IntType, s: string)
    requires t.Integral? && !t.signed
    ensures IntegerParse(t, "+") == Ok(0) && IntegerParse(t, "-") == Ok(0)
    ensures |Unsigned(s)| > Numeral.MaxDigits(10, t) ==> IntegerParse(t, s) == Err(Raise(NumberSize))
    ensures IntegerParse(t, s).Err? ==>
      IntegerParse(t, s).error.pos == Unknown &&
      (IntegerParse(t, s).error.kind == ForeignDigit || IntegerParse(t, s).error.kind == NumberSize)
  {
    SignChars("+");
    SignChars("-");
    assert "+"[1..] == [] && "-"[1..] == [];
  }

  /* ~~ Decimal literals: floatParse<T> ~~~~~~~~~~~~~~~~~~~~~~~~~~~~~~~~~~~ */

  /** The text without its trailing `'0'`s: the cut at
      `find_last_not_of('0') + 1`. */
  function TrimZeros(s: string): (r: string)
    ensures |r| <= |s| && r == s[..|r|]
    ensures r == [] || r[|r| - 1] != '0'
    ensures forall i :: |r| <= i < |s| ==> s[i] == '0'
  {
    if s != [] && s[|s| - 1] == '0' then TrimZeros(s[..|s| - 1]) else s
  }

  /** One part of a decimal literal, read as the unsigned type `t`
      (`size_t` in the source). `floatParse` reads each part with
      `integerParse`, which accepts a sign of its own; the strict reading
      accepts base-10 digits only. */
  function ReadPart(strict: bool, t: Numeral.IntType, s: string): Result<nat, ParseError>
    requires t.Integral? && !t.signed
  {
    Numeral.Base10Valid();
    if strict then
      match Numeral.DecodeN(Numeral.Base10, t, s)
      case Err(e) => Err(Raise(ErrorFrom(e)))
      case Ok(v) => Ok(v)
    else IntegerParse(t, s)
  }

  /** `head + tail * 0.1^m`, exactly. */
  function Shifted(head: nat, tail: nat, m: nat): real {
    head as real + tail as real / Pow(10, m) as real
  }

  /** The one-dot case of `floatParse<T>`: a head and a tail, not both
      empty; the tail stripped of trailing zeros and scaled by
      `0.1^length`. */
  function Fraction(strict: bool, t: Numeral.IntType, head: string, tail: string): Result<real, ParseError>
    requires t.Integral? && !t.signed
  {
    if head == [] && tail == [] then Err(Raise(NumberSize))
    else
      var h :- if head == [] then Ok(0) else ReadPart(strict, t, head);
      var digits := TrimZeros(tail);
      var f :- if tail == [] then Ok(0) else ReadPart(strict, t, digits);
      Ok(Shifted(h, f, |digits|))
  }

  /** The unsigned body of `floatParse<T>`, over the exact reals: no dot
      (a whole number), one dot (split at it), or several dots
      (`ForeignDigit`). */
  function Magnitude(strict: bool, t: Numeral.IntType, u: string): Result<real, ParseError>
    requires t.Integral? && !t.signed
  {
    var c := Count(u, '.');
    if c == 0 then
      var n :- ReadPart(strict, t, u);
      Ok(n as real)
    else if c == 1 then
      var k := Numeral.IndexOf(u, '.');
      Fraction(strict, t, u[..k], u[k + 1..])
    else Err(Raise(ForeignDigit))
  }

  /** `floatParse<T>`: an optional sign, then the unsigned body; the
      sign, `+1` or `-1`, multiplies the result. */
  function Decimal(strict: bool, t: Numeral.IntType, s: string): Result<real, ParseError>
    requires t.Integral? && !t.signed
  {
    ApplySign(SignOf(s), Magnitude(strict, t, Unsigned(s)))
  }

  /** `sign * result` for a sign of `+1` or `-1`; an error passes through. */
  function ApplySign(sign: int, r: Result<real, ParseError>): Result<real, ParseError> {
    match r
    case Err(e) => Err(e)
    case Ok(m) => Ok(if sign < 0 then -m else m)
  }

  /** `floatParse`, as written. */
  function FloatParse(s: string): Result<real, ParseError> {
    Decimal(false, Numeral.SizeT, s)
  }

  /** `floatParse` with the evidently intended reading of its parts:
      digits only, the one sign being the literal's own. */
  function FloatParseStrict(s: string): Result<real, ParseError> {
    Decimal(true, Numeral.SizeT, s)
  }

  /** The errors of `floatParse`: two or more dots are `ForeignDigit`, a
      lone dot is `NumberSize`, and no error carries a position yet. */
  lemma DecimalErrors(strict: bool, t: Numeral.IntType, s: string)
    requires t.Integral? && !t.signed
    ensures Count(Unsigned(s), '.') >= 2 ==> Decimal(strict, t, s) == Err(Raise(ForeignDigit))
    ensures Unsigned(s) == "." ==> Decimal(strict, t, s) == Err(Raise(NumberSize))
    ensures Decimal(strict, t, s).Err? ==> Decimal(strict, t, s).error.pos == Unknown
  {
    var u := Unsigned(s);
    if u == "." {
      assert Count(".", '.') == 1;
    }
    MagnitudeUnplaced(strict, t, u);
  }

  /** The errors of the unsigned body carry no position. */
  lemma MagnitudeUnplaced(strict: bool, t: Numeral.IntType, u: string)
    requires t.Integral? && !t.signed
    ensures Magnitude(strict, t, u).Err? ==> Magnitude(strict, t, u).error.pos == Unknown
  {
    var c := Count(u, '.');
    if c == 1 {
      var k := Numeral.IndexOf(u, '.');
      var h, f := u[..k], u[k + 1..];
      assert Magnitude(strict, t, u) == Fraction(strict, t, h, f);
      if h != [] {
        PartUnplaced(strict, t, h);
      }
      if f != [] {
        PartUnplaced(strict, t, TrimZeros(f));
      }
    } else if c == 0 {
      PartUnplaced(strict, t, u);
    }
  }

  /** The errors of either reading of a part carry no position. */
  lemma PartUnplaced(strict: bool, t: Numeral.IntType, s: string)
    requires t.Integral? && !t.signed
    ensures ReadPart(strict, t, s).Err? ==> ReadPart(strict, t, s).error.pos == Unknown
  {
  }

  /** Behind a sign, the unsigned text is read as before and the sign
      applied: `+` keeps the value, `-` negates it. */
  lemma DecimalSign(strict: bool, t: Numeral.IntType, s: string)
    requires t.Integral? && !t.signed && !HasSign(s)
    ensures Decimal(strict, t, s) == ApplySign(1, Magnitude(strict, t, s))
    ensures Decimal(strict, t, "+" + s) == ApplySign(1, Magnitude(strict, t, s))
    ensures Decimal(strict, t, "-" + s) == ApplySign(-1, Magnitude(strict, t, s))
  {
    Prefixed(s);
  }

  /** A leading `+` leaves the literal's value and error alone. */
  lemma DecimalPlus(strict: bool, t: Numeral.IntType, s: string)
    requires t.Integral? && !t.signed && !HasSign(s)
    ensures Decimal(strict, t, "+" + s) == Decimal(strict, t, s)
  {
    DecimalSign(strict, t, s);
  }

  /** The sign `-1` negates a value and keeps an error. */
  lemma ApplySignNegates(r: Result<real, ParseError>)
    ensures ApplySign(-1, r) == match ApplySign(1, r) case Ok(v) => Ok(-v) case Err(e) => Err(e)
  {
  }

  /** A base-10 digit is one of `'0'` to `'9'`. */
  lemma DigitChar(c: char)
    requires Numeral.IsDigit(Numeral.Base10, c)
    ensures '0' <= c <= '9'
  {
    assert Numeral.Base10.alphabet == ['0', '1', '2', '3', '4', '5', '6', '7', '8', '9'];
  }

  /** A digit string holds no dot. */
  lemma NoDot(s: string)
    requires Numeral.AllDigits(Numeral.Base10, s)
    ensures '.' !in s && Count(s, '.') == 0
  {
    if '.' in s {
      var i :| 0 <= i < |s| && s[i] == '.';
      DigitChar(s[i]);
    }
  }

  /** A text with exactly one dot splits there into its head and tail. */
  lemma SplitAtDot(h: string, f: string)
    requires '.' !in h && '.' !in f
    ensures var s := h + "." + f;
      Count(s, '.') == 1 && Numeral.IndexOf(s, '.') == |h| &&
      s[..|h|] == h && s[|h| + 1..] == f
  {
    var s := h + "." + f;
    CountAppend(h, "." + f, '.');
    CountAppend(".", f, '.');
    assert h + "." + f == h + ("." + f);
    assert s[|h|] == '.';
  }

  /** A digit string that fits is read as its value by both readings. */
  lemma ReadPartDigits(strict: bool, t: Numeral.IntType, s: string)
    requires t.Integral? && !t.signed
    requires Numeral.AllDigits(Numeral.Base10, s) && |s| <= Numeral.MaxDigits(10, t)
    ensures ReadPart(strict, t, s) == Ok(Numeral.Fold(Numeral.Base10, s))
  {
    DecodeNDigits(t, s);
    if !strict {
      IntegerParseDigits(t, s);
    }
  }

  /** `head + tail * 0.1^m` is the whole `head * 10^m + tail` shifted by
      `m` places. */
  lemma ShiftedWhole(head: nat, tail: nat, m: nat, whole: int)
    requires whole == head * Pow(10, m) + tail
    ensures Shifted(head, tail, m) == whole as real / Pow(10, m) as real
  {
    var p := Pow(10, m);
    RealOfProduct(head, p);
    OverCommon(head as real, tail as real, p as real);
  }

  lemma RealOfProduct(a: int, b: int)
    ensures (a * b) as real == a as real * b as real
  {
  }

  lemma OverCommon(a: real, b: real, p: real)
    requires p > 0.0
    ensures a + b / p == (a * p + b) / p
  {
  }

  /** Trimming keeps the digits it leaves. */
  lemma TrimDigits(f: string)
    requires Numeral.AllDigits(Numeral.Base10, f)
    ensures Numeral.AllDigits(Numeral.Base10, TrimZeros(f))
  {
    var d := TrimZeros(f);
    assert forall i :: 0 <= i < |d| ==> d[i] == f[i];
  }

  /** The head and the trimmed tail of digits are read as their values. */
  lemma FractionValue(strict: bool, t: Numeral.IntType, h: string, f: string)
    requires t.Integral? && !t.signed
    requires Numeral.AllDigits(Numeral.Base10, h) && Numeral.AllDigits(Numeral.Base10, f)
    requires h != [] || f != []
    requires |h| <= Numeral.MaxDigits(10, t) && |TrimZeros(f)| <= Numeral.MaxDigits(10, t)
    ensures var d := TrimZeros(f);
      Fraction(strict, t, h, f) ==
      Ok(Shifted(Numeral.Fold(Numeral.Base10, h), Numeral.Fold(Numeral.Base10, d), |d|))
  {
    TrimDigits(f);
    ReadPartDigits(strict, t, h);
    ReadPartDigits(strict, t, TrimZeros(f));
  }

  /** The value of a decimal literal `h.f` of digits: the digits of `h`
      followed by those of `f` without its trailing zeros, divided by ten
      to the power of their number, whenever both parts fit. */
  lemma DecimalValue(strict: bool, t: Numeral.IntType, h: string, f: string)
    requires t.Integral? && !t.signed
    requires Numeral.AllDigits(Numeral.Base10, h) && Numeral.AllDigits(Numeral.Base10, f)
    requires h != [] || f != []
    requires |h| <= Numeral.MaxDigits(10, t) && |TrimZeros(f)| <= Numeral.MaxDigits(10, t)
    ensures var d := TrimZeros(f);
      Decimal(strict, t, h + "." + f) ==
      Ok(Numeral.Fold(Numeral.Base10, h + d) as real / Pow(10, |d|) as real)
  {
    var s, d := h + "." + f, TrimZeros(f);
    var hv, dv := Numeral.Fold(Numeral.Base10, h), Numeral.Fold(Numeral.Base10, d);
    DecimalDot(strict, t, h, f);
    FractionValue(strict, t, h, f);
    Numeral.FoldAppend(Numeral.Base10, h, d);
    ShiftedWhole(hv, dv, |d|, Numeral.Fold(Numeral.Base10, h + d));
  }

  /** A whole number of digits that fits is read as its value. */
  lemma DecimalWhole(strict: bool, t: Numeral.IntType, h: string)
    requires t.Integral? && !t.signed
    requires Numeral.AllDigits(Numeral.Base10, h) && |h| <= Numeral.MaxDigits(10, t)
    ensures Decimal(strict, t, h) == Ok(Numeral.Fold(Numeral.Base10, h) as real)
  {
    NoDot(h);
    SignForms(h);
    ReadPartDigits(strict, t, h);
  }

  /** The empty part that `floatParse` hands to `integerParse`, for the
      body of a sign-only literal ("+", "-") or for a fraction of zeros
      once they are trimmed, reads as 0 with no sign. That is what the
      source's `str[0]` finds there: the byte after a word is never a
      sign, and a trimmed fraction still starts at its first '0'. */
  lemma EmptyPartReadsZero(strict: bool, t: Numeral.IntType, zeros: nat)
    requires t.Integral? && !t.signed
    ensures !HasSign("") && IntegerParse(t, "") == Ok(0)
    ensures ReadPart(strict, t, "") == Ok(0)
    ensures Magnitude(strict, t, "") == Ok(0.0)
    ensures TrimZeros(seq(zeros, _ => '0')) == ""
  {
    ReadPartDigits(false, t, []);
    ReadPartDigits(strict, t, []);
    assert Count([], '.') == 0;
    ZerosTrimmed(zeros);
  }

  lemma {:induction false} ZerosTrimmed(zeros: nat)
    ensures TrimZeros(seq(zeros, _ => '0')) == ""
  {
    if zeros > 0 {
      var z := seq(zeros, _ => '0');
      assert z[..zeros - 1] == seq(zeros - 1, _ => '0');
      ZerosTrimmed(zeros - 1);
    }
  }

  /** A '-' in front of an unsigned literal that reads as `v` reads as
      `-v`. */
  lemma DecimalNegated(strict: bool, t: Numeral.IntType, s: string, v: real)
    requires t.Integral? && !t.signed && !HasSign(s)
    requires Decimal(strict, t, s) == Ok(v)
    ensures Decimal(strict, t, "-" + s) == Ok(-v)
  {
    DecimalSign(strict, t, s);
    NegatedOk(Magnitude(strict, t, s), v);
  }

  /** The same for the strict float reader. */
  lemma FloatStrictNegated(s: string, v: real)
    requires !HasSign(s) && FloatParseStrict(s) == Ok(v)
    ensures FloatParseStrict("-" + s) == Ok(-v)
  {
    DecimalNegated(true, Numeral.SizeT, s, v);
  }

  /** A magnitude that reads as `v` under `+` reads as `-v` under `-`. */
  lemma NegatedOk(m: Result<real, ParseError>, v: real)
    requires ApplySign(1, m) == Ok(v)
    ensures ApplySign(-1, m) == Ok(-v)
  {
  }

  /** A literal `h.f` of digits has no sign. */
  lemma DotLiteralUnsigned(h: string, f: string)
    requires Numeral.AllDigits(Numeral.Base10, h)
    ensures !HasSign(h + "." + f)
  {
    var s := h + "." + f;
    SignChars(s);
    if h != [] {
      assert s[0] == h[0];
      DigitChar(h[0]);
    }
  }

  /** A literal `h.f` of digits is split at its dot. */
  lemma DecimalDot(strict: bool, t: Numeral.IntType, h: string, f: string)
    requires t.Integral? && !t.signed
    requires Numeral.AllDigits(Numeral.Base10, h) && Numeral.AllDigits(Numeral.Base10, f)
    ensures Decimal(strict, t, h + "." + f) == Fraction(strict, t, h, f)
  {
    NoDot(h);
    NoDot(f);
    SplitAtDot(h, f);
    DotLiteralUnsigned(h, f);
  }

  /** Trailing zeros after the dot change neither the value nor the error
      of a literal of digits. */
  lemma DecimalTrailingZero(strict: bool, t: Numeral.IntType, h: string, f: string)
    requires t.Integral? && !t.signed
    requires Numeral.AllDigits(Numeral.Base10, h) && Numeral.AllDigits(Numeral.Base10, f)
    requires h != [] || f != []
    ensures Decimal(strict, t, h + "." + (f + "0")) == Decimal(strict, t, h + "." + f)
  {
    assert Numeral.AllDigits(Numeral.Base10, f + "0");
    DecimalDot(strict, t, h, f);
    DecimalDot(strict, t, h, f + "0");
    assert TrimZeros(f + "0") == TrimZeros(f) by {
      assert (f + "0")[..|f|] == f;
    }
    if f == [] {
      ReadPartDigits(strict, t, []);
    }
  }

  /** `"1.+5"`: the dot splits it into `"1"` and `"+5"`, and it has no
      sign of its own. */
  lemma InnerSignSplit(strict: bool, t: Numeral.IntType)
    requires t.Integral? && !t.signed
    ensures Decimal(strict, t, "1.+5") == Fraction(strict, t, "1", "+5")
  {
    SplitAtDot("1", "+5");
    assert "1" + "." + "+5" == "1.+5";
    SignChars("1.+5");
  }

  /** A one-digit string is read as that digit's value. */
  lemma SingleDigit(i: nat)
    requires i < 10
    ensures Numeral.AllDigits(Numeral.Base10, [Numeral.Base10.alphabet[i]])
    ensures Numeral.Fold(Numeral.Base10, [Numeral.Base10.alphabet[i]]) == i
  {
    Numeral.Base10Valid();
    Numeral.DigitValueAt(Numeral.Base10, i);
    assert [Numeral.Base10.alphabet[i]][..0] == [];
  }

  lemma ReadOne(strict: bool, t: Numeral.IntType)
    requires t.Integral? && !t.signed && Numeral.MaxDigits(10, t) >= 1
    ensures ReadPart(strict, t, "1") == Ok(1)
  {
    SingleDigit(1);
    assert [Numeral.Base10.alphabet[1]] == "1";
    ReadPartDigits(strict, t, "1");
  }

  lemma PlusFive(t: Numeral.IntType)
    requires t.Integral? && !t.signed && Numeral.MaxDigits(10, t) >= 1
    ensures ReadPart(false, t, "+5") == Ok(5)
  {
    var five := [Numeral.Base10.alphabet[5]];
    SingleDigit(5);
    IntegerParseDigits(t, five);
    assert "+" + five == "+5";
  }

  /** As written, the tail of a decimal literal may carry a sign of its
      own, which also counts as a digit of the fraction: `"1.+5"` is read
      as 1.05. */
  lemma DecimalInnerSign(t: Numeral.IntType)
    requires t.Integral? && !t.signed && Numeral.MaxDigits(10, t) >= 1
    ensures Decimal(false, t, "1.+5") == Ok(1.05)
  {
    InnerSignSplit(false, t);
    InnerSignFraction(t);
  }

  lemma InnerSignFraction(t: Numeral.IntType)
    requires t.Integral? && !t.signed && Numeral.MaxDigits(10, t) >= 1
    ensures Fraction(false, t, "1", "+5") == Ok(1.05)
  {
    assert Shifted(1, 5, 2) == 1.05 by {
      assert Pow(10, 2) == 100;
    }
    assert TrimZeros("+5") == "+5";
    ReadOne(false, t);
    PlusFive(t);
  }

  /** The strict reading rejects the inner sign as a foreign digit. */
  lemma DecimalStrictInnerSign(t: Numeral.IntType)
    requires t.Integral? && !t.signed && Numeral.MaxDigits(10, t) >= 2
    ensures Decimal(true, t, "1.+5") == Err(Raise(ForeignDigit))
  {
    InnerSignSplit(true, t);
    assert TrimZeros("+5") == "+5";
    ReadOne(true, t);
    assert ReadPart(true, t, "+5") == Err(Raise(ForeignDigit)) by {
      Numeral.Base10Valid();
      assert !Numeral.AllDigits(Numeral.Base10, "+5") by {
        if Numeral.IsDigit(Numeral.Base10, '+') {
          DigitChar('+');
        }
      }
    }
  }

  /** `floatParse` accepts `"1.+5"` as 1.05; `"1.+5"` is not a decimal
      literal. */
  lemma FloatParseInnerSign()
    ensures FloatParse("1.+5") == Ok(1.05)
    ensures FloatParseStrict("1.+5") == Err(Raise(ForeignDigit))
  {
    Numeral.MaxDigitsSizeT();
    DecimalInnerSign(Numeral.SizeT);
    DecimalStrictInnerSign(Numeral.SizeT);
  }

  /** A decimal literal's characters: base-10 digits and dots. */
  predicate DecimalChars(u: string) {
    forall i :: 0 <= i < |u| ==> u[i] == '.' || Numeral.IsDigit(Numeral.Base10, u[i])
  }

  /** What the strict reading accepts of a part are digits. */
  lemma StrictPartDigits(t: Numeral.IntType, s: string)
    requires t.Integral? && !t.signed
    ensures ReadPart(true, t, s).Ok? ==> Numeral.AllDigits(Numeral.Base10, s)
  {
  }

  /** A tail whose trimmed digits are digits is all digits: the trimmed
      part is zeros. */
  lemma TrimmedDigits(f: string)
    requires Numeral.AllDigits(Numeral.Base10, TrimZeros(f))
    ensures Numeral.AllDigits(Numeral.Base10, f)
  {
    var d := TrimZeros(f);
    forall i | 0 <= i < |f|
      ensures Numeral.IsDigit(Numeral.Base10, f[i])
    {
      if i < |d| {
        assert f[i] == d[i];
      }
    }
  }

  /** What the strict fraction reading accepts is made of digits. */
  lemma StrictFractionDigits(t: Numeral.IntType, head: string, tail: string)
    requires t.Integral? && !t.signed
    requires Fraction(true, t, head, tail).Ok?
    ensures Numeral.AllDigits(Numeral.Base10, head) && Numeral.AllDigits(Numeral.Base10, tail)
  {
    if head != [] {
      StrictPartDigits(t, head);
    }
    if tail != [] {
      StrictPartDigits(t, TrimZeros(tail));
      TrimmedDigits(tail);
    }
  }

  /** The corrected `floatParse` accepts nothing but an optional sign
      followed by digits and at most one dot. */
  lemma StrictDigitsOnly(t: Numeral.IntType, s: string)
    requires t.Integral? && !t.signed
    requires Decimal(true, t, s).Ok?
    ensures DecimalChars(Unsigned(s)) && Count(Unsigned(s), '.') <= 1
  {
    var u := Unsigned(s);
    assert Magnitude(true, t, u).Ok?;
    if Count(u, '.') == 0 {
      StrictPartDigits(t, u);
    } else {
      var k := Numeral.IndexOf(u, '.');
      StrictFractionDigits(t, u[..k], u[k + 1..]);
      forall i | 0 <= i < |u|
        ensures u[i] == '.' || Numeral.IsDigit(Numeral.Base10, u[i])
      {
        if i < k {
          assert u[i] == u[..k][i];
        } else if i > k {
          assert u[i] == u[k + 1..][i - k - 1];
        }
      }
    }
  }

  /** Whether a part `floatParse` hands to `integerParse` starts with a
      sign of its own: the whole body without a dot, or the head or the
      trimmed tail around one dot. */
  predicate PartSigned(u: string) {
    var c := Count(u, '.');
    if c == 0 then HasSign(u)
    else if c == 1 then
      var k := Numeral.IndexOf(u, '.');
      HasSign(u[..k]) || HasSign(TrimZeros(u[k + 1..]))
    else false
  }

  /** On a part without a sign of its own the two readings of a part are
      the same; on a part with one the strict reading fails. */
  lemma ReadPartAgree(t: Numeral.IntType, s: string)
    requires t.Integral? && !t.signed
    ensures !HasSign(s) ==> ReadPart(false, t, s) == ReadPart(true, t, s)
    ensures HasSign(s) ==> ReadPart(true, t, s).Err?
  {
    if !HasSign(s) {
      IntegerParseUnsignedText(t, s);
    } else {
      SignChars(s);
      StrictPartDigits(t, s);
      if Numeral.IsDigit(Numeral.Base10, s[0]) {
        DigitChar(s[0]);
      }
    }
  }

  /** `floatParse` as written and its strict reading agree on every
      literal none of whose parts starts with a sign of its own; on the
      others, such as `"1.+5"`, the strict reading fails. */
  lemma FloatReadingsAgree(s: string)
    ensures !PartSigned(Unsigned(s)) ==> FloatParse(s) == FloatParseStrict(s)
    ensures PartSigned(Unsigned(s)) ==> FloatParseStrict(s).Err?
  {
    var t, u := Numeral.SizeT, Unsigned(s);
    var c := Count(u, '.');
    if c == 0 {
      ReadPartAgree(t, u);
    } else if c == 1 {
      var k := Numeral.IndexOf(u, '.');
      var head, tail := u[..k], u[k + 1..];
      ReadPartAgree(t, head);
      ReadPartAgree(t, TrimZeros(tail));
      assert HasSign(head) ==> head != [];
      assert HasSign(TrimZeros(tail)) ==> tail != [];
    }
  }

  /* ~~ Printing positions ~~~~~~~~~~~~~~~~~~~~~~~~~~~~~~~~~~~~~~~~~~~~~~~ */

  /** The decimal print of a count, as `operator<<` writes a `size_t`. */
  function Decimal10(x: nat): string {
    Numeral.Base10Valid();
    Numeral.EncodeN(Numeral.Base10, x)
  }

  /** `operator<<(SourcePos)`: `[Unknown Position]` for row 0, otherwise
      the row, then `:` and the column when the column is known. */
  function PosToString(p: SourcePos): string {
    if p.row == 0 then "[Unknown Position]"
    else Decimal10(p.row) + (if p.col > 0 then ":" + Decimal10(p.col) else "")
  }

  /** A decimal print is non-empty digits that read back as the count. */
  lemma Decimal10Digits(x: nat)
    ensures |Decimal10(x)| >= 1 && ':' !in Decimal10(x) && Decimal10(x)[0] != '['
    ensures Numeral.Fold(Numeral.Base10, Decimal10(x)) == x
  {
    Numeral.Base10Valid();
    var s := Decimal10(x);
    Numeral.EncodeNDigits(Numeral.Base10, x);
    DigitChar(s[0]);
    if ':' in s {
      var i :| 0 <= i < |s| && s[i] == ':';
      DigitChar(s[i]);
    }
  }

  /** Two texts joined by a colon come apart at the first colon. */
  lemma SplitAtColon(a: string, b: string, c: string, d: string)
    requires ':' !in a && ':' !in c
    requires a + ":" + b == c + ":" + d
    ensures a == c && b == d
  {
    var s := a + ":" + b;
    assert s[|a|] == ':' && s[|c|] == ':';
    assert a == s[..|a|] && c == s[..|c|];
    assert b == s[|a| + 1..] && d == s[|c| + 1..];
  }

  /** A known position prints as digits, with a colon exactly when the
      column is known. */
  lemma PosToStringShape(p: SourcePos)
    requires p.row > 0
    ensures PosToString(p)[0] != '['
    ensures ':' in PosToString(p) <==> p.col > 0
  {
    var s, r := PosToString(p), Decimal10(p.row);
    Decimal10Digits(p.row);
    Decimal10Digits(p.col);
    assert s[0] == r[0];
    if p.col > 0 {
      assert s[|r|] == ':';
    } else {
      assert s == r;
    }
  }

  lemma Decimal10Injective(x: nat, y: nat)
    requires Decimal10(x) == Decimal10(y)
    ensures x == y
  {
    Decimal10Digits(x);
    Decimal10Digits(y);
  }

  /** Every position with an unknown row prints as the same marker, which
      no known position matches. */
  lemma PosToStringUnknown(p: SourcePos, q: SourcePos)
    requires p.row > 0
    ensures PosToString(q.(row := 0)) == "[Unknown Position]"
    ensures PosToString(p) != PosToString(q.(row := 0))
  {
    PosToStringShape(p);
    assert PosToString(q.(row := 0))[0] == '[';
  }

  lemma PosToStringRowOnly(p: SourcePos, q: SourcePos)
    requires p.row > 0 && q.row > 0 && p.col == 0 && q.col == 0
    requires PosToString(p) == PosToString(q)
    ensures p == q
  {
    assert PosToString(p) == Decimal10(p.row);
    assert PosToString(q) == Decimal10(q.row);
    Decimal10Injective(p.row, q.row);
  }

  lemma PosToStringRowCol(p: SourcePos, q: SourcePos)
    requires p.row > 0 && q.row > 0 && p.col > 0 && q.col > 0
    requires PosToString(p) == PosToString(q)
    ensures p == q
  {
    Decimal10Digits(p.row);
    Decimal10Digits(q.row);
    assert PosToString(p) == Decimal10(p.row) + ":" + Decimal10(p.col);
    assert PosToString(q) == Decimal10(q.row) + ":" + Decimal10(q.col);
    SplitAtColon(Decimal10(p.row), Decimal10(p.col), Decimal10(q.row), Decimal10(q.col));
    Decimal10Injective(p.col, q.col);
    Decimal10Injective(p.row, q.row);
  }

  /** Distinct known positions print differently. */
  lemma PosToStringInjective(p: SourcePos, q: SourcePos)
    requires p.row > 0 && q.row > 0
    requires PosToString(p) == PosToString(q)
    ensures p == q
  {
    PosToStringShape(p);
    PosToStringShape(q);
    if p.col > 0 {
      PosToStringRowCol(p, q);
    } else {
      PosToStringRowOnly(p, q);
    }
  }
}
