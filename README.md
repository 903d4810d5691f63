# sketch: the text side of the sketch-document format

This project models the text processing of `sketch`, a small drawing program. A drawing is a *sketch*: a list of *elements* (`Brush`, `Pencil`, `Data`, `Raw`, `Marker`). Each element holds *atoms* (strokes of points, or text markers) and a list of *modifiers* (`Affine` matrices, `Array` replication, `Uppercase`).

Sketches are stored in two text formats:

- **The document format.** For example, `Data [ 000000'00m0g0 ] Affine [ 1 0 0 0 1 0 0 0 1 ];`. It is read by a tokenizer and a recursive-descent parser. Every failure is a tagged error value that carries the source position of the token where it arose.
- **The legacy raw format.** It has whitespace-separated words, one per stroke. Each word holds 2-digit base-36 `x`/`y` pairs. The repository has three readers for it: the current one, an earlier draft, and a stream-based example.

Each module models one part of the repository:

| module | file | models |
|---|---|---|
| `Results` | results.dfy | `Option` and `Result`, the model of `std::expected` |
| `Util` | util.dfy | `Util::isAny`, the membership fold every lexer rule uses |
| `Arith` | arith.dfy | powers and division facts the codec proofs use |
| `Numeral` | numeral.dfy | `Base<B, Alphabet>` (see below) |
| `ParserBase` | parser_base.dfy | shared parser vocabulary (see below) |
| `NumberText` | number_text.dfy | the stream's default print of a whole `Affine` entry, and its read-back |
| `Types` | types.dfy | the data types of `types.hh` |
| `Document` | document.dfy | the parser's document types, read off their use sites |
| `Lexer` | lexer.dfy | `SketchFormat::tokenize` and its draft, as one loop over a `Dialect` |
| `RawFormat` | raw_format.dfy | `RawFormat::tokenize`, `rawParse` and `print` |
| `Transform` | transform.dfy | `fromRaw`, the affine algebra, `Array` and `Uppercase` |
| `SketchFormat` | sketch_format.dfy | the parser chain (see below) |
| `Printers` | printers.dfy | the `operator<<` printers of `types.cc`, as functions returning the text |
| `RawDraft` | raw_draft.dfy | the draft one-pass `RawFormat::parse` |
| `ExampleReader` | example_reader.dfy | the `operator>>` readers of `parser_examples.cc` |

- **`Numeral`** covers the fixed-width codec with its two's-complement-style signed mapping, the variable-width codec, `MaxDigitCount`, and `parseTuples`.
- **`ParserBase`** covers error tags, source positions, tokens, first-position-wins errors, the character classes, `integerParse` and `floatParse`.
  - src/parser.hh:17-131 holds an older `ParserBase`. Its code at src/parser.hh:42-130 is the same as the current one, except that tokens and errors carry no position and the error enum has no `ElementBrushSize`.
  - The same members model it: `CharClasses` (src/parser.hh:42-48), `ErrorFrom` for its `mapError` (src/parser.hh:52-57), `IntegerParse` (src/parser.hh:59-82), the as-written `FloatParse` (src/parser.hh:84-130) and `TokenOrder`, since its `Token` holds only the string, so two tokens are equal exactly when their strings are (src/parser.hh:34-37).
  - `Lexer.TokenizeDraft` and `RawDraft` use this older class through src/parser.cc:1.
- **`SketchFormat`** covers `sketchParse`, `elementParse`, the `type*`, `atom*` and `mods*` parsers, `parseStroke`, `parenParse` and `removeTicks`.

Loops in the source are `method`s with loop invariants. Each is proved equal to a specification function, and the properties are proved about that function. This applies to:

- the codec loops, the tokenizers and the raw readers;
- `parenParse` and the modifier loops;
- `sketchParse`, `fromRaw` and `Array`;
- the printers.

Expression code is functions. Integers are unbounded. An integer type `T` of the source is described by an `IntType` (its width and signedness) wherever its range matters. Matrix entries and pressures are `real`.

Three stages deviate from the source as written: `MaxDigitCount`, the Affine entry reader and the element size guard. For each, the model keeps two members. One follows the code as written, and one follows the evidently intended behaviour. The parser chain uses the intended member. "## Findings" lists each pair, and `ParseStrokeSameSuccess` and `FloatReadingsAgree` bound how far the two readings differ.

## Model

| member | source | states |
|---|---|---|
| Util.IsAnyIff | src/util.hh:8-19 | `isAny(x, args…)` holds exactly when some argument matches `x`; with no arguments it is false |
| Util.IsAnyOneSpan | src/util.hh:12-13 | with one string-like argument, `isAny` is membership of `x` in it |
| Util.IsAnyAppend | src/util.hh:18 | the fold over two argument lists is the disjunction of the two folds |
| Numeral.DigitValueOfDigit | src/base36.hh:67-76 | the value of an alphabet character is below `B` and indexes back to that character |
| Numeral.DigitValueAt | src/base36.hh:67-76 | every value below `B` is the value of its own alphabet character, so `digitValue` is a bijection onto `[0, B)` |
| Numeral.RolloverBounds | src/base36.hh:36-44 | `capacity<N>` is positive, and for `N ≥ 1` `rollover<N>` lies strictly between 0 and the capacity |
| Numeral.MaxDigitCount | src/base36.hh:46-61 | the loop returns the digit count of the code as written, including the `bool` specialisation |
| Numeral.LargestDigitCount | src/base36.hh:46-56 | the intended bound: `B^k − 1 ≤ max(U) < B^(k+1) − 1` |
| Numeral.LargestDigitCountUnique | src/base36.hh:46-56 | only one `k` satisfies that bound |
| Numeral.MaxDigitsOfBool | src/base36.hh:58-61 | the `bool` specialisation gives the intended bound |
| Numeral.CountedDigitsAgree | src/base36.hh:46-56 | wherever the loop's exit test is exact, the counted digits equal the intended bound |
| Numeral.MaxDigitCountBase10 | src/base36.hh:149 | for 8-, 16-, 32- and 64-bit unsigned types, base 10 counts the intended number of digits |
| Numeral.MaxDigitCountBase36 | src/base36.hh:150 | the same for base 36 |
| Numeral.MaxDigitCountUnderReports | src/base36.hh:46-56 | for `128 ≤ B ≤ 255` and `uint8_t`, the code reports 0 digits although one digit always fits |
| Numeral.FoldBound | src/base36.hh:87-89 | the left-to-right fold of `n` digits is below `B^n` |
| Numeral.ReadDigits | src/base36.hh:86-90 | the digit loop fails with `ForeignDigit` exactly when a character is not a digit, and otherwise yields the fold `acc·B + digit` |
| Numeral.Parse | src/base36.hh:80-97 | the fixed-width decoder computes `Decode`: size check, digit fold, signed rollover |
| Numeral.DecodeInRange | src/base36.hh:80-97 | every decoded value lies in `[0, B^N)` unsigned, or `[rollover − B^N, rollover)` signed |
| Numeral.DecodeErrors | src/base36.hh:84-90 | longer than `N` gives `StringSize`; otherwise `ForeignDigit` iff some character is not a digit; `""` gives 0 |
| Numeral.ToString | src/base36.hh:99-114 | the encoder loop writes `Encode`: `N` digits, most significant first, negatives shifted by `B^N` |
| Numeral.EncodeIntAgrees | src/base36.hh:103-113 | when the values fit in `int`, the encoder's `int` arithmetic gives the same digits as the unbounded encoding |
| Numeral.DecodeEncode | src/base36.hh:80-114 | `parse<N,T>(toString<N,T>(x)) == x` for every `x` in range; the printed text has exactly `N` characters |
| Numeral.EncodeDecode | src/base36.hh:80-114 | every `N`-digit string decodes, and encoding the value gives the string back |
| Numeral.ParseN | src/base36.hh:118-133 | the variable-width loop computes `DecodeN`: over `MaxDigitCount` digits gives `StringSize`, then the fold, with no sign handling |
| Numeral.DecodeNFits | src/base36.hh:118-133 | a decoded value never exceeds the maximum of `T` |
| Numeral.ToStringN | src/base36.hh:135-146 | the loop computes `EncodeN` |
| Numeral.EncodeNDigits | src/base36.hh:135-146 | `toString_n` emits at least one digit, all from the alphabet, and they fold back to `x` |
| Numeral.EncodeNLeading | src/base36.hh:137-146 | 0 prints as the single zero digit; any other value has no leading zero |
| Numeral.EncodeNLength | src/base36.hh:135-146 | a positive `x` prints with the least number of digits: `B^(len−1) ≤ x < B^len` |
| Numeral.DecodeNEncodeN | src/base36.hh:118-146 | `parse_n(toString_n(x))` is `x` when `x < B^MaxDigitCount`, and `StringSize` otherwise |
| Numeral.DecodeNRejectsUInt32Max | src/base36.hh:122-124 | "4294967295" is rejected for a 32-bit unsigned type although it fits |
| Numeral.EncodeTuplesLength | src/parsers.cc:34-40 | encoding `k` records gives `k` times the record width |
| Numeral.DecodeEncodeRecords | src/parsers.cc:34-40 | decoding encoded records gives them back |
| Numeral.ParseTuplesEncode | src/parsers.cc:34-40 | `parseTuples` inverts the field-by-field fixed-width encoding |
| Numeral.ParseTuplesShape | src/parsers.cc:34-40 | a length that is not a multiple of the record width fails; a success has one record per width, each in range |
| ParserBase.AdvanceAppend | src/parserBase.hh:31 | advancing over `a + b` is advancing over `a`, then over `b` |
| ParserBase.AdvanceWithinLine | src/parserBase.hh:31 | text without '\n' moves only the column, by its length ('\r' included) |
| ParserBase.AdvanceRows | src/parserBase.hh:31 | after a '\n' the row goes up by one and the column counts from 0 |
| ParserBase.AdvanceRowCount | src/parserBase.hh:31 | the row goes up by the number of '\n' characters |
| ParserBase.TokenOrder | src/parserBase.hh:39-49 | token comparison is a strict order on the text alone; positions never matter |
| ParserBase.LocateFirstWins | src/parserBase.hh:71-85 | `Unexpected` keeps the kind, keeps a position already set, fills in a missing one, and is idempotent |
| ParserBase.ErrorFrom | src/parserBase.hh:87-92 | `ForeignDigit` maps to `ForeignDigit` and `StringSize` to `NumberSize` |
| ParserBase.CharClasses | src/parserBase.hh:96-102 | whitespace is exactly ' ', '\t', '\n', '\r'; newline is exactly '\n', '\r' |
| ParserBase.SignChars | src/parserBase.hh:117 | a sign is a leading '+' or '-' |
| ParserBase.WrapSmall | src/parserBase.hh:135 | the final `sign * result` keeps a value in range and turns `−v` into `2^bits − v` |
| ParserBase.IntegerParseOk | src/parserBase.hh:113-136 | with the digits parsed to `v`, the result is `sign·v` modulo `2^bits` |
| ParserBase.IntegerParseDigits | src/parserBase.hh:113-136 | digits alone, or after '+', parse to their value |
| ParserBase.IntegerParseNegative | src/parserBase.hh:113-136 | "-digits" parses to `2^bits − v` (0 for zero) |
| ParserBase.IntegerParseUnsignedText | src/parserBase.hh:128-135 | unsigned text parses as `parse_n`, errors through `errorFrom` |
| ParserBase.IntegerParseEncodeN | src/parserBase.hh:113-136 | `integerParse` reads back a `toString_n` print when it has at most `MaxDigitCount` digits, else `NumberSize` |
| ParserBase.IntegerParseErrors | src/parserBase.hh:113-136 | "+" and "-" alone give 0, too many digits give `NumberSize`, and every error is `ForeignDigit` or `NumberSize` with no position |
| ParserBase.TrimZeros | src/parserBase.hh:169-172 | the result is a prefix with no trailing '0', and only '0's were removed |
| ParserBase.DecimalErrors | src/parserBase.hh:149-181 | two or more '.' give `ForeignDigit`, "." alone gives `NumberSize`, and errors carry no position |
| ParserBase.DecimalSign | src/parserBase.hh:142-146 | a leading '-' negates the magnitude; '+' or no sign keeps it |
| ParserBase.DecimalPlus | src/parserBase.hh:142-146 | a leading '+' changes nothing |
| ParserBase.DecimalNegated | src/parserBase.hh:142-146 | a '-' in front of an unsigned literal that reads as `v` makes it read as `−v` |
| ParserBase.FloatStrictNegated | src/parserBase.hh:183 | the same for the strict float reading: `sign * result` negates a successful reading |
| ParserBase.DecimalValue | src/parserBase.hh:154-180 | "h.f" reads as `fold(h ++ f') / 10^|f'|`, where `f'` is `f` without trailing zeros |
| ParserBase.DecimalWhole | src/parserBase.hh:149-153 | a literal without '.' reads as its integer value |
| ParserBase.DecimalDot | src/parserBase.hh:154-180 | a literal with one '.' is split there into head and tail |
| ParserBase.EmptyPartReadsZero | src/parserBase.hh:113-179 | the empty part of a sign-only literal or of an all-zero fraction reads as 0 with no sign, and a fraction of zeros trims to that empty part |
| ParserBase.DecimalTrailingZero | src/parserBase.hh:169-172 | a trailing '0' of the fraction never changes the value ("1.50" = "1.5") |
| ParserBase.FloatParseInnerSign | src/parserBase.hh:162-176 | as written, "1.+5" reads as 1.05, because the tail goes through `integerParse`, which accepts a sign; the strict reading rejects it |
| ParserBase.StrictDigitsOnly | src/parserBase.hh:138-184 | a strict success has only digits and at most one '.' after the sign |
| ParserBase.ReadPartAgree | src/parserBase.hh:162-176 | on unsigned parts the two readings of a head or tail agree; a signed part fails strictly |
| ParserBase.FloatReadingsAgree | src/parserBase.hh:138-184 | the as-written and strict readings agree on every literal whose parts carry no inner sign; otherwise the strict one fails |
| ParserBase.PosToStringShape | src/parsers.cc:445-452 | a known position prints without '[', with ':' exactly when the column is known |
| ParserBase.PosToStringUnknown | src/parsers.cc:445-452 | row 0 prints "[Unknown Position]", unlike any known position |
| ParserBase.PosToStringInjective | src/parsers.cc:445-452 | distinct known positions print differently |
| Lexer.OperatorChars | src/parsers.cc:113-116 | the operators are '[', ']', ',', ';', and in the draft also ':' |
| Lexer.ClassTests | src/parsers.cc:94-110 | characters are classified in the order of the transition: newline, blank, operator, '(', ')', '%', other |
| Lexer.Push | src/parsers.cc:76-80 | `resultPush` appends the token `[i, j)` with the current position (no position in the draft) |
| Lexer.EmitOperator | src/parsers.cc:113-116 | a pending operator is pushed; the current tokenizer stops after ';', the draft when the next character is ';' |
| Lexer.EmitChange | src/parsers.cc:118-127 | a change of state pushes the word it ends or the literal it closes, and an open literal at the end fails |
| Lexer.Emission | src/parsers.cc:113-127 | one iteration's output and outcome equal the reference `Emitted` |
| Lexer.Iteration | src/parsers.cc:84-128 | one iteration keeps the loop invariant: tokens so far plus the pending reading equal the whole reading |
| Lexer.Tokenize | src/parsers.cc:72-131 | the tokenizer returns the tokens of the recursive reading `Lex`, and the lexemes tile the text in order |
| Lexer.TokenizeDraft | src/parser.cc:39-95 | the draft tokenizer returns the tokens of `Lex` in the draft dialect |
| Lexer.RunPending | src/parsers.cc:72-131 | the state machine from any consistent state equals the recursive reading from that state |
| Lexer.StepSound | src/parsers.cc:94-127 | every iteration emits what the recursive reading emits next |
| Lexer.LexSpans | src/parsers.cc:72-131 | the lexemes are in order, non-empty, and inside the text |
| Lexer.LexShape | src/parsers.cc:72-131 | every lexeme is an operator character, a word, or a parenthesised literal |
| Lexer.TokenizeShaped | src/parsers.cc:113-126 | every token is an operator, a word or a balanced literal; the current tokenizer emits ';' only as the last token |
| Lexer.CommentIgnored | src/parsers.cc:96-98 | a '%' at the start of a line yields no tokens up to the newline |
| Lexer.UnclosedFails | src/parsers.cc:122-126 | a '(' never closed gives `UnbalancedString`, at the end position in the current tokenizer and with no position in the draft |
| Lexer.DraftDropsSemicolon | src/parser.cc:77-80 | the draft reads "];" as the single token "]" |
| Lexer.DraftReadsPastSemicolon | src/parser.cc:77-80 | the draft does not stop at the ';' of "a;b" |
| Lexer.CurrentKeepsSemicolon | src/parsers.cc:113-116 | the current tokenizer reads "];" as "]" then ";", and stops at the ';' of "a;b" |
| RawFormat.RunLength | src/parsers.cc:20-21 | the run ends at the first whitespace or the end of the text |
| RawFormat.WordsShape | src/parsers.cc:14-26 | every word is non-empty and free of whitespace |
| RawFormat.WordsCons | src/parsers.cc:14-26 | a word followed by whitespace is split off first |
| RawFormat.Tokenize | src/parsers.cc:14-26 | the tokens are the maximal whitespace-free runs, in order, without positions |
| RawFormat.RawParse | src/parsers.cc:28-47 | the loop computes `RawRead` |
| RawFormat.Parse | src/parsers.cc:9-12 | parsing is `rawParse` of `tokenize` |
| RawFormat.RawReadResult | src/parsers.cc:28-47 | success iff every word decodes, with one stroke per word in order; otherwise `MalformedNumberTuple` at the first bad word and no partial sketch |
| RawFormat.StrokeOfRange | src/parsers.cc:34-40 | a decoded word has four characters per point and coordinates in `[0, 1296)` |
| RawFormat.Print | src/parsers.cc:49-57 | the printer writes " " and then four digits per point for every stroke |
| RawFormat.StrokeOfPrinted | src/parsers.cc:49-57 | a printed stroke with coordinates in range decodes back to itself |
| RawFormat.WordsPrinted | src/parsers.cc:49-57 | the words of a print are the printed strokes, in order |
| RawFormat.PrintParse | src/parsers.cc:49-57 | reading a print gives back the sketch when every stroke is non-empty and in range |
| RawFormat.EmptyStrokeLost | src/parsers.cc:49-57 | a stroke without points prints as a lone space and is lost on reading |
| Transform.PointOfRaw | src/types.cc:11-13 | `Point::fromRaw` keeps `x`, `y` and sets pressure 1.0 |
| Transform.StrokeFromRaw | src/types.cc:21-30 | diameter 3 and the converted points, in order |
| Transform.SketchFromRaw | src/types.cc:37-48 | exactly one `Data` element holding one converted stroke per raw stroke, in order, with no modifiers |
| Transform.MulIdentity | src/types.cc:58-78 | the default Affine is neutral on both sides of the product |
| Transform.MulAssoc | src/types.cc:62-78 | the row-major 3×3 product is associative over exact reals |
| Transform.Trunc | src/types.cc:80-86 | `int(...)` truncates toward zero |
| Transform.Apply | src/types.cc:80-86 | `Affine*Point` always gives pressure 1.0 |
| Transform.ApplyIdentity | src/types.cc:80-86 | the identity moves no point |
| Transform.ApplyExact | src/types.cc:80-86 | with whole entries, the image is the first two rows applied to `(x, y, 1)`; entries 6–8 are unused |
| Transform.ApplyMulWhole | src/types.cc:62-86 | applying `b` then `a` equals applying `a*b` when `b` is a whole-number affine map |
| Transform.ApplyStrokes | src/types.cc:88-111 | the same number of strokes, each keeping its diameter and point count, each point mapped |
| Transform.ApplyStrokesIdentity | src/types.cc:88-111 | the identity leaves full-pressure strokes unchanged |
| Transform.ApplyStrokesCompose | src/types.cc:88-111 | applying `b` then `a` to strokes is applying `a*b` (whole-number `b`) |
| Transform.PowerAdd | src/types.cc:113-128 | `A^i · A^j = A^(i+j)` |
| Transform.ArrayApply | src/types.cc:113-128 | the loop computes `Replicate(N, A, strokes)` |
| Transform.ReplicateLength | src/types.cc:113-128 | `Array(N, A)` on `k` strokes gives `N·k` strokes |
| Transform.ReplicateGroup | src/types.cc:113-128 | group `i` of the output is `A^i` applied to the input |
| Transform.UppercaseEffect | src/types.cc:130-154 | 'a'–'z' become 'A'–'Z' and every other character is kept; counts and lengths are kept |
| Transform.UppercaseIdempotent | src/types.cc:130-154 | upper-casing twice is upper-casing once |
| SketchFormat.ParenKinds | src/parsers.cc:382-389 | "[" is an opening bracket, "]" a closing one, anything else no bracket |
| SketchFormat.ParenTypeOf | src/parsers.cc:382-389 | the search over the bracket table computes that classification |
| SketchFormat.ParenParse | src/parsers.cc:372-415 | the stack loop computes `Group`, with the iterator it leaves |
| SketchFormat.GroupBracket | src/parsers.cc:372-415 | after "[", the result is the tokens strictly inside the matching "]", balanced, with the iterator just past it; running out gives `MissingBracketRight` at the last token |
| SketchFormat.GroupOther | src/parsers.cc:372-381 | a string literal is returned alone; any other non-"[" token gives `MissingBracketLeft` at it |
| SketchFormat.Untick | src/parsers.cc:423-441 | the result is no longer than the input and has no apostrophe |
| SketchFormat.RemoveTicksCases | src/parsers.cc:423-441 | a leading, trailing or doubled apostrophe gives `TickmarkOrdering` (iff), and a success has no apostrophe |
| SketchFormat.UntickNoTicks | src/parsers.cc:430-440 | without apostrophes, the result is the input lower-cased character by character |
| SketchFormat.RemoveTicksJoin | src/parsers.cc:423-441 | groups joined by single apostrophes come back concatenated |
| SketchFormat.AtomStrokeBrushParse | src/parsers.cc:211-232 | exactly 2 tokens, else `AtomSize`; diameter below 1296, signed 3-digit coordinates, pressure in `[0, 1]` |
| SketchFormat.AtomStrokeDataParse | src/parsers.cc:234-251 | exactly 1 token, else `AtomSize`; signed 3-digit coordinates |
| SketchFormat.AtomStrokeRawParse | src/parsers.cc:253-270 | exactly 1 token, else `AtomSize`; unsigned 2-digit coordinates in `[0, 1296)` |
| SketchFormat.AtomMarkerParse | src/parsers.cc:272-283 | succeeds iff there is one string-literal token, whose text is the marker in parentheses |
| SketchFormat.EntriesParsed | src/parsers.cc:336-342 | the entry loop succeeds iff every token reads, and keeps each value in order |
| SketchFormat.EntriesFailed | src/parsers.cc:336-342 | a failure is the first bad entry's error, located at its token |
| SketchFormat.AffineRead | src/parsers.cc:332-344 | anything but 9 tokens gives `ModAffineSize`; a success is an `Affine` |
| SketchFormat.AffineReadEntries | src/parsers.cc:332-344 | success iff all 9 entries read, the matrix holding them in order; otherwise the first bad entry's error at its token |
| SketchFormat.ModAffineParse | src/parsers.cc:332-344 | the loop filling the matrix computes `AffineRead` |
| SketchFormat.ModArrayParse | src/parsers.cc:346-362 | 13 tokens, else `ModArraySize`; "Affine", "[", "]" at 1, 2, 12, else `MalformedModArray`; success iff count and matrix both read, holding them |
| SketchFormat.ModUppercaseParse | src/parsers.cc:364-368 | succeeds exactly on no tokens, else `ModUppercaseSize` |
| SketchFormat.ModsStrokeParse | src/parsers.cc:287-308 | the modifier loop computes `StrokeModsRead` |
| SketchFormat.StrokeModsEven | src/parsers.cc:287-308 | stroke modifiers come as name-and-group pairs, so a success consumes an even number of tokens |
| SketchFormat.ModsMarkerParse | src/parsers.cc:310-330 | the modifier loop computes `MarkerModsRead` |
| SketchFormat.ParseStrokeAsWritten | src/parsers.hh:88 | the size guard as written tests the whole span's length, not the bracket contents |
| SketchFormat.ParseStroke | src/parsers.hh:72-102 | the loop computes `StrokeElement`: bracket group, size guard on its contents, atoms, then modifiers |
| SketchFormat.StrokeElementCases | src/parsers.hh:78-99 | empty gives `EmptyElement`; no "[" gives `MissingBracketLeft`; then bracket error, size error, and atoms then modifiers, in that order |
| SketchFormat.StrokeElementOk | src/parsers.hh:81-101 | a success holds one atom per `n` tokens strictly inside the brackets, in order, and the modifiers after "]" |
| SketchFormat.ChunksShape | src/parsers.hh:89-94 | the atom chunks each have `n` tokens and concatenate back to the contents |
| SketchFormat.MapAllCases | src/parsers.hh:89-94 | the atoms succeed iff every chunk does; otherwise the first failing chunk's error |
| SketchFormat.SameGuard | src/parsers.hh:88 | when both guards agree on divisibility, the two stroke parsers are equal |
| SketchFormat.ParseStrokeSameSuccess | src/parsers.hh:88 | for atom lengths 1 and 2, whenever either reading succeeds, both give the same result |
| SketchFormat.BrushAtomRejectsClose | src/parsers.cc:211-232 | a Brush atom whose second token is "]" fails, with `MalformedNumberTuple` at it |
| SketchFormat.BrushSizeAsWritten | src/parsers.hh:88 | as written, `Brush [ 10 ] Affine [ ]` slips past the size guard and fails with `MalformedNumberTuple` at "]" |
| SketchFormat.BrushSizeCorrected | src/parsers.hh:88 | with the guard on the contents, the same span fails with `ElementBrushSize` |
| SketchFormat.ElementParse | src/parsers.cc:159-174 | an empty element gives `EmptyElement` |
| SketchFormat.ElementParseDispatch | src/parsers.cc:159-207 | the first token picks Brush, Pencil, Data (also for `Raw`) or Marker; anything else gives `UnknownElementType` at it |
| SketchFormat.SketchParse | src/parsers.cc:135-157 | the element loop computes `SketchRead` |
| SketchFormat.Parse | src/parsers.cc:61-66 | parsing is `sketchParse` of the tokens, or the tokenizer's error |
| SketchFormat.SketchReadErrors | src/parsers.cc:137-140 | no tokens give `EmptyFile`; no ";" gives `MissingSemicolon` at the last token |
| SketchFormat.SketchReadIgnoresTail | src/parsers.cc:135-157 | nothing after the first ";" is read |
| SketchFormat.ElementsCount | src/parsers.cc:145-154 | the loop yields one element per ","-separated group |
| SketchFormat.SketchReadCount | src/parsers.cc:145-154 | a parsed sketch has one more element than there are "," before the first ";" (none if it comes first) |
| Printers.SeparatedJoin | src/types.cc:180-186 | the count-down printer writes the items joined by the separator, with the last marker after the final one |
| Printers.Digits3 | src/types.cc:226-227 | a coordinate prints as exactly three characters |
| Printers.PrintStroke | src/types.cc:223-232 | the stroke printer loop computes `StrokeText` |
| Printers.StrokeTextJoin | src/types.cc:223-232 | a stroke prints as its points' digit groups joined by single apostrophes |
| Printers.CoordinateEncodes | src/types.cc:226-227 | a coordinate in `[−23328, 23328)` prints as its signed 3-digit base-36 encoding |
| Printers.PointEncodes | src/types.cc:226-227 | a point prints as the encoded record of its two coordinates |
| Printers.PointsUnticked | src/types.cc:223-232 | `removeTicks` of a printed stroke is the concatenation of its point digits |
| Printers.StrokeRoundTrip | src/types.cc:223-232 | the `Data` atom parser reads a printed stroke back to its coordinates, for coordinates in `[−23328, 23328)` |
| Printers.MarkerRoundTrip | src/types.cc:234-236 | the marker atom parser reads a printed marker back to itself |
| Printers.EntryTexts | src/types.cc:240-248 | the Affine printer writes the nine entries in row-major order |
| Printers.AffineRoundTrip | src/types.cc:240-248 | the Affine reader reads the printed entries back to the matrix when each entry's text reads back |
| Printers.ArrayRoundTrip | src/types.cc:250-256 | the Array reader reads a printed `Array` back to its count and matrix |
| Printers.AffineRoundTripWhole | src/types.cc:240-248 | with no read-back assumption, the Affine reader reads the printed matrix back whenever every entry is a whole number of magnitude below 10^6, printed in the stream's default format |
| NumberText.WholeReadsBack | src/parserBase.hh:138-184 | a whole number of magnitude below 10^6, printed as its digits after a '-' when negative ("-0" included), reads back as that number |
| NumberText.ShortDecimalReads | src/parserBase.hh:149-153 | the decimal digits of a count below 10^6 read back as the count |
| NumberText.ShortNegativeReads | src/parserBase.hh:142-153 | a '-' before those digits reads back as the negated count |
| Printers.ElementTexts | src/types.cc:188-219 | one printed text per element, in order |
| Printers.PrintSketch | src/types.cc:180-186 | the sketch printer loop computes `SketchText` |
| Printers.SketchTextJoin | src/types.cc:180-186 | elements are joined by ",\n" and the last is followed by ";" |
| Printers.RawSketchRoundTrip | src/types.cc:167-176 | the raw format reads a printed `RawSketch` back to its strokes, for non-empty strokes in `[0, 1296)` |
| RawDraft.RunPointsCons | src/parser.cc:18-22 | a run decodes iff its first four characters do and the rest does, points in order |
| RawDraft.ReadRun | src/parser.cc:16-23 | the index loop over one run computes `RunStroke` |
| RawDraft.SkipWhitespace | src/parser.cc:11 | the skip stops at a non-blank or the end without changing the words left |
| RawDraft.RunEnd | src/parser.cc:14 | the run ends at the first whitespace or the end |
| RawDraft.DraftParse | src/parser.cc:6-28 | the one-pass parser computes `DraftRead` of the words |
| RawDraft.RunAgrees | src/parser.cc:16-23 | a run is accepted iff the current raw decoder accepts it, with the same points |
| RawDraft.RunErrors | src/parser.cc:17-21 | a run fails only with `StrokeLength` or `ForeignDigit` |
| RawDraft.RunPointsErrors | src/parser.cc:18-22 | a bad four-character group fails with `ForeignDigit` |
| RawDraft.DraftAgrees | src/parser.cc:6-28 | on any word list the draft succeeds iff the current reader does, with the same strokes; its errors are `StrokeLength` or `ForeignDigit` |
| RawDraft.DraftParseAgrees | src/parser.cc:6-28 | on any text the draft and current raw parsers succeed together and agree |
| ExampleReader.WhitespaceNarrower | src/parser_examples.cc:26-27 | this whitespace is only ' ' and '\t', narrower than the parser's and than `std::ws` |
| ExampleReader.DigitAgrees | src/parser_examples.cc:30-36 | `isBase36Digit` is exactly the base-36 alphabet, and `parseBase36Digit` its digit value |
| ExampleReader.SkipSpace | src/parser_examples.cc:41 | `std::ws` leaves a suffix starting at a non-space |
| ExampleReader.LineLength | src/parser_examples.cc:41 | `getline` with ' ' takes the characters before the first space |
| ExampleReader.SkipSpaces | src/parser_examples.cc:41 | the skip loop computes `SkipSpace` |
| ExampleReader.LineEnd | src/parser_examples.cc:41 | the search loop finds the end of the line |
| ExampleReader.PointsOfWord | src/parser_examples.cc:46-52 | the index loop decodes each four digits into a point, in order |
| ExampleReader.ReadStroke | src/parser_examples.cc:38-57 | the stroke reader succeeds exactly as `StrokeRead` does, with its stroke and the stream left |
| ExampleReader.ReadLine | src/parser_examples.cc:42-56 | a line is accepted exactly when its length is a positive multiple of 4 and all its characters are digits |
| ExampleReader.ReadSketch | src/parser_examples.cc:59-65 | the sketch loop computes `SketchRead`, appending strokes until the first failure |
| ExampleReader.CoordinateAgrees | src/parser_examples.cc:46-52 | `36·d0 + d1` equals the draft's 2-digit base-36 decoding |
| ExampleReader.ChunkAgrees | src/parser_examples.cc:46-52 | four digits make the same point as in the draft |
| ExampleReader.WordRun | src/parser_examples.cc:42-52 | the draft accepts a word iff it is all digits, with the same points |
| ExampleReader.WordAgrees | src/parser_examples.cc:42-52 | a non-empty word is accepted iff the current raw decoder accepts it, with the same points |
| ExampleReader.WordPointsRange | src/parser_examples.cc:46-52 | decoded coordinates lie in `[0, 1296)`, so they fit the `int16_t` of `RawPoint` |
| ExampleReader.SketchReadSpace | src/parser_examples.cc:59-65 | leading spaces do not change the strokes read |
| ExampleReader.StrokeReadWord | src/parser_examples.cc:38-57 | after a space, an accepted word reads as its points, leaving the text after its delimiter |
| ExampleReader.SpacedRead | src/parser_examples.cc:59-65 | accepted words each preceded by a space read back as their points |
| ExampleReader.ReaderAgrees | src/parser_examples.cc:59-65 | on such text the stream reader and the current raw reader give the same strokes |

## Left out

- The renderer, window, graphics, SDL, Emscripten and `main` files are left out. They deal with rasterization, windows, events, file I/O and console printing.
- `src/modifiers.cc` and `src/modifiers.hh` are left out. They are an abandoned draft over types the repository no longer declares.
- `Sketch::flatten` and `Sketch::render` are left out. They are stubs that return a fixed rectangle.
- `printTokens` in both tokenizers is left out. It is console output only.
- The printers and `main` of `src/parser_examples.cc` (lines 70-114) are left out. They are iostream output.
- `std::ostream`, `std::istream`, `std::span` and `std::expected` are modelled by strings, sequences and `Result`. A stream is the text it has left.
- `std::ws` skips C `isspace` characters. `getline` with ' ' stops at the first space.
- Floating point is not modelled.
  - Affine entries (`float`/`double`), `floatParse` results and Brush pressures `p/1295` are exact `real`s.
  - No rounding or bit-exact result is claimed.
  - The Affine printer's number formatting is a parameter `fmt`.
  - `Printers.AffineRoundTrip` and `Printers.ArrayRoundTrip` assume that each printed entry reads back. That holds only for some values.
  - The stream's default format writes at most 6 significant digits, and switches to an exponent form for large or small magnitudes. `1000000.0f` prints as "1e+06" and `1.0f/3` as "0.333333". `floatParse` reads neither back: the first fails and the second is a different number.
  - `Printers.AffineRoundTripWhole` discharges the assumption for whole entries of magnitude below 10^6, which print as their decimal digits after a '-' when negative (`NumberText.WholeReadsBack`).
- `Base36::parseTuples`, `Base36::Number_t`, `Util::pow`, `Util::toLower`, `Util::contains`, `Util::subspan` and `Util::min` are not defined in any file shown. The model reads their meaning off their use sites, as follows.
  - `pow` on numbers is `Arith.Pow` (src/base36.hh:38) or the power of ten that scales a fraction (src/parserBase.hh:179). On an `Affine` it is `Transform.Power`: `pow(A, 0)` is the identity and `pow(A, i)` is `pow(A, i−1) · A` (src/types.cc:122).
  - `parseTuples` is written from its use sites. The text length must be a multiple of the summed field widths. Each field is decoded with the fixed-width parse. Any failure fails the call (`TupleLength` for a bad length).
  - `toLower` is ASCII only: it maps 'A'–'Z' to 'a'–'z' and keeps every other character.
- The `Atom::*`, `FlatSketch`, `Brush` and `Pencil` types are not declared in any file shown. `Document` reads their shape off their use sites.
- Numeral.Parse: decodes over unbounded integers. The source folds inside `T` and would wrap for an `N` whose `B^N` exceeds `T`. No such instantiation exists: all are `N ≤ 3` with `int` or `unsigned`.
- ParserBase.IntegerParse: models unsigned `T` only. It wraps `sign * result` modulo `2^bits` of `T` and ignores any integer promotion wider than `size_t`.
  - The signed-`T` branch (`SignCharacter` on a sign, src/parserBase.hh:118-120, and the same in the older src/parser.hh:64-67) is not modelled.
  - For a signed `T` that branch can never be compiled, because the `parse_n<T>` after it requires an unsigned `T` (src/parserBase.hh:129 and src/parser.hh:75).
  - Every call site uses `std::size_t`.
- `integerParse` reads `str[0]` of the empty view that `floatParse` passes for a sign-only literal ("+", "-") or for a fraction of zeros once trimmed ("1.0", ".0"). The model reads such a part as 0 with no sign (`ParserBase.EmptyPartReadsZero`). That is what the read finds, because the byte after such a view is never '+' or '-': after a word comes whitespace, an operator, '(' or the end of the text, and a trimmed fraction still starts at its first '0'.
- Lexer.TokenizeDraft: at parser.cc:79 the draft reads `str[i]` one past the last character. It is modelled as "not ';'", since the terminating `'\0'` is what that read finds.
- `RawPoint` in src/types.hh:12-14 holds `int` coordinates, which `Types.RawPoint` models. The `RawPoint` of src/parser_examples.cc:17 holds `int16_t` coordinates, and the model uses `int` for them as well. `ExampleReader.WordPointsRange` shows every decoded value there is below 1296, so nothing is truncated.
- Each `Affine` entry is read by the strict literal reader, which rejects a sign inside the head or tail. This is deliberate, not an omission; see "## Findings".
  - The members involved are `SketchFormat.AffineRead`, `SketchFormat.ModAffineParse`, `SketchFormat.ModArrayParse`, `SketchFormat.TypeBrushParse`, `SketchFormat.SketchRead`, `SketchFormat.ParseStroke`, `SketchFormat.SketchParse` and `SketchFormat.Parse`.
  - The element chain uses the size guard on the bracket contents (`StrokeElement`).
  - `ParseStrokeSameSuccess` shows the two guards give the same result whenever either succeeds.
  - `FloatReadingsAgree` shows the two float readings agree on every literal without an inner sign.
- A print-then-parse round trip of a whole document is proved per part only: strokes, markers, `Affine`, `Array`, the element and sketch framing, and the raw format. It is not proved end to end through the tokenizer.

## Findings

| source | as written | input that shows it | evidently intended | confidence | as-written member | corrected member |
|---|---|---|---|---|---|---|
| src/base36.hh:46-56 | `MaxDigitCount` divides the maximum by `B` first and counts powers below it, so it can count one digit too few | `B = 200`, `T = uint8_t`: gives 0, although any single digit (< 200 ≤ 255) fits | the largest `k` with `B^k − 1 ≤ max(T)` | high; not executed | Numeral.MaxDigitCountUnderReports | Numeral.LargestDigitCount |
| src/parserBase.hh:162-176 | the head and tail of a decimal literal are read by `integerParse`, which accepts a leading sign | `1.+5` reads as 1.05, and `1.-5` is accepted too | only digits around the '.' | high; not executed | ParserBase.FloatParseInnerSign | ParserBase.FloatReadingsAgree |
| src/parser.cc:77-80 | the draft stops when the character *after* an operator is ';' (reading `str[i]` past the end) and never pushes that ';' | `];` yields only `]`; `a;b` is read past the ';' | stop right after pushing the operator ';' | high; not executed | Lexer.DraftDropsSemicolon | Lexer.CurrentKeepsSemicolon |
| src/parsers.hh:88 | the `ElementBrushSize` guard tests the whole span's length modulo the atom length, not the bracket contents | `Brush [ 10 ] Affine [ ];` fails with `MalformedNumberTuple` at "]" | test the bracket contents and report `ElementBrushSize` | high; not executed | SketchFormat.BrushSizeAsWritten | SketchFormat.BrushSizeCorrected |
| src/parsers.cc:49-57 | the raw printer writes a stroke without points as a lone space, which reads back as nothing | `FlatSketch([FlatStroke([])])` prints " " and reads back as no strokes | every stroke survives a print and read | medium; not executed | RawFormat.EmptyStrokeLost | RawFormat.PrintParse |
