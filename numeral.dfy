/**
 * The positional numeral codec `Base<B, Alphabet>`: a radix with an ordered
 * digit alphabet, its fixed-width decoder and encoder (two's-complement
 * style for signed targets), its variable-width decoder and encoder, the
 * digit bound `MaxDigitCount<T>` and the record decoder `parseTuples`.
 *
 * Integers are unbounded here; an integer type `T` of the source is described
 * by an `IntType` (its width and signedness) wherever its range matters.
 */
module Numeral {
  import opened Results
  import opened Arith
  import opened Util

  /** `Base<B, Alphabet>::ParseError`. */
  datatype CodecError = ForeignDigit | StringSize

  /* ~~ The alphabet ~~~~~~~~~~~~~~~~~~~~~~~~~~~~~~~~~~~~~~~~~~~~~~~~~~~~~ */

  /** A radix `B` and its digit alphabet, digit value 0 first. */
  datatype Base = Base(radix: nat, alphabet: string) {
    /** The three static assertions of the template: `B > 1`, one character
        per digit value, and every digit occurring exactly once. */
    predicate Valid() {
      radix > 1 && |alphabet| == radix &&
      forall i, j :: 0 <= i < j < |alphabet| ==> alphabet[i] != alphabet[j]
    }
  }

  const Base10: Base := Base(10, "0123456789")
  const Base36: Base := Base(36, "0123456789abcdefghijklmnopqrstuvwxyz")

  lemma Base10Valid()
    ensures Base10.Valid()
  {
  }

  /** The base-36 digits are '0' to '9' and then 'a' to 'z'. */
  lemma Base36Codes()
    ensures forall i :: 0 <= i < 36 ==> Base36.alphabet[i] as int == if i < 10 then 48 + i else 87 + i
  {
    var a := Base36.alphabet;
    assert forall i :: 0 <= i < |a| ==> a[i] as int == if i < 10 then 48 + i else 87 + i;
  }

  lemma Base36Valid()
    ensures Base36.Valid()
  {
    Base36Codes();
  }

  /** Index of the first occurrence of `c` in `s`, or `|s|` when absent. */
  function IndexOf(s: string, c: char): (k: nat)
    ensures k <= |s|
    ensures k < |s| ==> s[k] == c
    ensures forall j :: 0 <= j < k ==> s[j] != c
  {
    if s == [] then 0
    else if s[0] == c then 0
    else 1 + IndexOf(s[1..], c)
  }

  /** `isDigit`: the character occurs in the alphabet. */
  predicate IsDigit(b: Base, c: char) {
    c in b.alphabet
  }

  /** `digitValue`: the position of the character's first occurrence in the
      alphabet (the alphabet's length for a foreign character). */
  function DigitValue(b: Base, c: char): nat {
    IndexOf(b.alphabet, c)
  }

  /** A digit's value is below the radix and names that digit back. */
  lemma DigitValueOfDigit(b: Base, c: char)
    requires b.Valid() && IsDigit(b, c)
    ensures DigitValue(b, c) < b.radix && b.alphabet[DigitValue(b, c)] == c
  {
  }

  /** With unique digits, `digitValue` inverts indexing into the alphabet:
      it is a bijection from the alphabet onto `[0, B)`. */
  lemma DigitValueAt(b: Base, i: nat)
    requires b.Valid() && i < b.radix
    ensures IsDigit(b, b.alphabet[i]) && DigitValue(b, b.alphabet[i]) == i
  {
    var k := DigitValue(b, b.alphabet[i]);
    assert k <= i;
    assert b.alphabet[k] == b.alphabet[i];
  }

  predicate AllDigits(b: Base, s: string) {
    forall i :: 0 <= i < |s| ==> IsDigit(b, s[i])
  }

  /* ~~ Widths ~~~~~~~~~~~~~~~~~~~~~~~~~~~~~~~~~~~~~~~~~~~~~~~~~~~~~~~~~~~ */

  /** `capacity<N>()`: the number of distinct N-digit strings, `B^N`. */
  function Capacity(b: Base, n: nat): nat {
    Pow(b.radix, n)
  }

  /** `rollover<N>()`: the first N-digit value the signed decoder reads as
      negative; half the capacity, one more for an odd base. */
  function Rollover(b: Base, n: nat): nat {
    Capacity(b, n) / 2 + b.radix % 2
  }

  /** The rollover lies within the capacity, and for `N >= 1` strictly above
      zero, so that both signs are representable. */
  lemma RolloverBounds(b: Base, n: nat)
    requires b.Valid()
    ensures 0 < Capacity(b, n)
    ensures Rollover(b, n) <= Capacity(b, n)
    ensures n >= 1 ==> 0 < Rollover(b, n) < Capacity(b, n)
  {
    PowMonotone(b.radix, 0, n);
  }

  /* ~~ Integer types ~~~~~~~~~~~~~~~~~~~~~~~~~~~~~~~~~~~~~~~~~~~~~~~~~~~~ */

  /** An integral type `T` of the source: `bool`, or a fixed-width integer. */
  datatype IntType = Bool | Integral(bits: nat, signed: bool)

  const UInt8: IntType := Integral(8, false)
  const UInt32: IntType := Integral(32, false)
  const SizeT: IntType := Integral(64, false)

  /** The maximum of `std::make_unsigned_t<T>` (1 for `bool`). */
  function UnsignedMax(t: IntType): nat {
    match t
    case Bool => 1
    case Integral(bits, _) => Pow(2, bits) - 1
  }

  /* ~~ MaxDigitCount ~~~~~~~~~~~~~~~~~~~~~~~~~~~~~~~~~~~~~~~~~~~~~~~~~~~~~ */

  /** The least exponent `k >= i` with `B^k >= m`: the search the loop of
      `MaxDigitCount` performs from `i`. */
  function LeastExponentFrom(radix: nat, m: nat, i: nat): (k: nat)
    requires radix > 1
    ensures k >= i && Pow(radix, k) >= m
    ensures forall j :: i <= j < k ==> Pow(radix, j) < m
    decreases m - Pow(radix, i)
  {
    if Pow(radix, i) >= m then i
    else
      PowMonotone(radix, i, i + 1);
      LeastExponentFrom(radix, m, i + 1)
  }

  /** What the loop of `MaxDigitCount<T>` returns for the unsigned maximum
      `maxU`: with `max = maxU / B` and `i` the least exponent whose power is
      not below `max`, the result is `i + (B^i - 1 == max)`. */
  function CountedDigits(radix: nat, maxU: nat): nat
    requires radix > 1
  {
    DivBounds(maxU, radix);
    var m := maxU / radix;
    var i := LeastExponentFrom(radix, m, 0);
    i + if Pow(radix, i) - 1 == m then 1 else 0
  }

  /** `MaxDigitCount<T>()` as written, including the `bool` specialisation. */
  function CountedDigitsFor(radix: nat, t: IntType): nat
    requires radix > 1
  {
    match t
    case Bool => if radix == 2 then 1 else 0
    case Integral(_, _) => CountedDigits(radix, UnsignedMax(t))
  }

  /** `MaxDigitCount<T>()`, with its loop. */
  method MaxDigitCount(b: Base, t: IntType) returns (k: nat)
    requires b.Valid()
    ensures k == CountedDigitsFor(b.radix, t)
  {
    if t.Bool? {
      return if b.radix == 2 then 1 else 0;
    }
    DivBounds(UnsignedMax(t), b.radix);
    var max: nat := UnsignedMax(t) / b.radix;
    var i: nat := 0;
    var n: nat := 1;
    while n < max
      invariant n == Pow(b.radix, i)
      invariant LeastExponentFrom(b.radix, max, i) == LeastExponentFrom(b.radix, max, 0)
      decreases max - n
    {
      PowMonotone(b.radix, i, i + 1);
      n, i := n * b.radix, i + 1;
    }
    k := i + if n - 1 == max then 1 else 0;
  }

  /** The largest count `c >= k` of digits that always fit below `maxU`,
      searching upwards from `k`. */
  function LargestDigitCountFrom(radix: nat, maxU: nat, k: nat): (c: nat)
    requires radix > 1 && Pow(radix, k) - 1 <= maxU
    ensures c >= k
    ensures Pow(radix, c) - 1 <= maxU < Pow(radix, c + 1) - 1
    decreases maxU + 1 - Pow(radix, k)
  {
    if maxU < Pow(radix, k + 1) - 1 then k
    else
      PowMonotone(radix, k, k + 1);
      LargestDigitCountFrom(radix, maxU, k + 1)
  }

  /** The digit bound `MaxDigitCount` is meant to compute: the largest `k`
      for which every k-digit string fits, `B^k - 1 <= maxU`. */
  function LargestDigitCount(radix: nat, maxU: nat): (k: nat)
    requires radix > 1
    ensures Pow(radix, k) - 1 <= maxU < Pow(radix, k + 1) - 1
  {
    LargestDigitCountFrom(radix, maxU, 0)
  }

  /** The bound is unique: any `k` with `B^k - 1 <= maxU < B^(k+1) - 1` is it. */
  lemma LargestDigitCountUnique(radix: nat, maxU: nat, k: nat)
    requires radix > 1
    requires Pow(radix, k) - 1 <= maxU < Pow(radix, k + 1) - 1
    ensures k == LargestDigitCount(radix, maxU)
  {
    var j := LargestDigitCount(radix, maxU);
    PowMonotone(radix, k + 1, j);
    PowMonotone(radix, j + 1, k);
  }

  /** The digit bound the model's decoders use for a type (see the
      corrected `MaxDigitCount`). */
  function MaxDigits(radix: nat, t: IntType): nat
    requires radix > 1
  {
    LargestDigitCount(radix, UnsignedMax(t))
  }

  /** The `bool` specialisation agrees with the intended bound. */
  lemma MaxDigitsOfBool(radix: nat)
    requires radix > 1
    ensures CountedDigitsFor(radix, Bool) == MaxDigits(radix, Bool)
  {
    var k := if radix == 2 then 1 else 0;
    PowSucc(radix, 1);
    MulMono(radix, 2, radix);
    LargestDigitCountUnique(radix, 1, k);
  }

  /** The loop's result equals the intended bound once the exponent `i` it
      stops at is known and is also the intended count. */
  lemma CountedDigitsAgree(radix: nat, maxU: nat, i: nat)
    requires radix > 1
    requires Pow(radix, i) >= maxU / radix
    requires i > 0 ==> Pow(radix, i - 1) < maxU / radix
    requires Pow(radix, i) - 1 != maxU / radix
    requires Pow(radix, i) - 1 <= maxU < Pow(radix, i + 1) - 1
    ensures CountedDigits(radix, maxU) == LargestDigitCount(radix, maxU)
  {
    DivBounds(maxU, radix);
    var m := maxU / radix;
    var k := LeastExponentFrom(radix, m, 0);
    PowMonotone(radix, i, k);
    PowMonotone(radix, k, i - 1);
    LargestDigitCountUnique(radix, maxU, i);
  }

  /** For base 10 and the maxima of the 8-, 16-, 32- and 64-bit unsigned
      types, the loop yields the intended bound. */
  lemma MaxDigitCountBase10(maxU: nat)
    requires maxU == 255 || maxU == 65535 || maxU == 4294967295 || maxU == 18446744073709551615
    ensures CountedDigits(10, maxU) == LargestDigitCount(10, maxU)
  {
    if maxU == 255 { CountedDigitsAgree(10, 255, 2); }
    else if maxU == 65535 { CountedDigitsAgree(10, 65535, 4); }
    else if maxU == 4294967295 { CountedDigitsAgree(10, 4294967295, 9); }
    else { CountedDigitsAgree(10, 18446744073709551615, 19); }
  }

  /** The same for base 36. */
  lemma MaxDigitCountBase36(maxU: nat)
    requires maxU == 255 || maxU == 65535 || maxU == 4294967295 || maxU == 18446744073709551615
    ensures CountedDigits(36, maxU) == LargestDigitCount(36, maxU)
  {
    if maxU == 255 { CountedDigitsAgree(36, 255, 1); }
    else if maxU == 65535 { CountedDigitsAgree(36, 65535, 3); }
    else if maxU == 4294967295 { CountedDigitsAgree(36, 4294967295, 6); }
    else { CountedDigitsAgree(36, 18446744073709551615, 12); }
  }

  /** The loop under-reports for an 8-bit type and any base from 128 to 255:
      it gives 0, although every one-digit value (at most `B - 1 <= 255`)
      fits. */
  lemma MaxDigitCountUnderReports(radix: nat)
    requires 128 <= radix <= 255
    ensures CountedDigits(radix, UnsignedMax(UInt8)) == 0
    ensures MaxDigits(radix, UInt8) == 1
  {
    assert UnsignedMax(UInt8) == 255;
    DivModUnique(255, radix, 1, 255 - radix);
    PowSucc(radix, 1);
    MulMono(radix, 128, radix);
    LargestDigitCountUnique(radix, 255, 1);
  }

  /* ~~ Fixed-width decoding: parse<N,T> ~~~~~~~~~~~~~~~~~~~~~~~~~~~~~~~~~~ */

  /** The left-to-right fold `acc = B * acc + digitValue(c)`. */
  function Fold(b: Base, s: string): nat {
    if s == [] then 0 else b.radix * Fold(b, s[..|s| - 1]) + DigitValue(b, s[|s| - 1])
  }

  lemma {:induction false} FoldBound(b: Base, s: string)
    requires b.Valid() && AllDigits(b, s)
    ensures Fold(b, s) < Pow(b.radix, |s|)
    decreases |s|
  {
    if s != [] {
      var init := s[..|s| - 1];
      assert AllDigits(b, init);
      FoldBound(b, init);
      DigitValueOfDigit(b, s[|s| - 1]);
      DigitStep(b.radix, Fold(b, init), DigitValue(b, s[|s| - 1]), Pow(b.radix, |init|));
    }
  }

  /** Reading `h` then `u` shifts the value of `h` by `|u|` digits. */
  lemma {:induction false} FoldAppend(b: Base, h: string, u: string)
    ensures Fold(b, h + u) == Fold(b, h) * Pow(b.radix, |u|) + Fold(b, u)
    decreases |u|
  {
    if u == [] {
      assert h + u == h;
    } else {
      var init := u[..|u| - 1];
      var d := DigitValue(b, u[|u| - 1]);
      assert (h + u)[..|h + u| - 1] == h + init;
      assert Fold(b, h + u) == b.radix * Fold(b, h + init) + d;
      FoldAppend(b, h, init);
      var f, p, g := Fold(b, h), Pow(b.radix, |init|), Fold(b, init);
      assert Fold(b, u) == b.radix * g + d;
      assert Pow(b.radix, |u|) == b.radix * p;
      FoldAppendStep(b.radix, f, p, g, d);
    }
  }

  lemma FoldAppendStep(r: int, f: int, p: int, g: int, d: int)
    ensures r * (f * p + g) + d == f * (r * p) + (r * g + d)
  {
    Distribute(r, f * p, g);
    MulSwap(r, f, p);
  }

  /** One more character of the loop: the fold of the next prefix. */
  lemma FoldNext(b: Base, s: string, i: nat)
    requires i < |s|
    ensures Fold(b, s[..i + 1]) == b.radix * Fold(b, s[..i]) + DigitValue(b, s[i])
  {
    assert s[..i + 1][..i] == s[..i];
  }

  /** `parse<N,T>(str)`: at most N digits, folded, then for a signed `T`
      values at or above the rollover are mapped to negative ones. */
  function Decode(b: Base, n: nat, signed: bool, s: string): Result<int, CodecError> {
    if |s| > n then Err(StringSize)
    else if !AllDigits(b, s) then Err(ForeignDigit)
    else Ok(Signed(b, n, signed, Fold(b, s)))
  }

  /** The signed reading of an N-digit value: at or above the rollover it
      stands for the value minus `B^N`. */
  function Signed(b: Base, n: nat, signed: bool, v: nat): int {
    if signed && v >= Rollover(b, n) then v - Capacity(b, n) else v
  }

  /** The digit loop shared by `parse<N,T>` and `parse_n<T>`: the first
      foreign character fails the whole string, otherwise the result is the
      fold of all digits. */
  method ReadDigits(b: Base, s: string) returns (r: Result<nat, CodecError>)
    ensures r == if AllDigits(b, s) then Ok(Fold(b, s)) else Err(ForeignDigit)
  {
    var result := 0;
    var i := 0;
    while i < |s|
      invariant 0 <= i <= |s|
      invariant AllDigits(b, s[..i])
      invariant result == Fold(b, s[..i])
    {
      var c := s[i];
      if !IsDigit(b, c) {
        assert !AllDigits(b, s);
        return Err(ForeignDigit);
      }
      result := b.radix * result + DigitValue(b, c);
      assert result == Fold(b, s[..i + 1]) by { FoldNext(b, s, i); }
      assert AllDigits(b, s[..i + 1]) by { assert s[..i + 1] == s[..i] + [c]; }
      i := i + 1;
    }
    assert s[..i] == s;
    return Ok(result);
  }

  /** `parse<N,T>`: the width check, the digit loop, the signed reading. */
  method Parse(b: Base, n: nat, signed: bool, s: string) returns (r: Result<int, CodecError>)
    ensures r == Decode(b, n, signed, s)
  {
    if |s| > n {
      return Err(StringSize);
    }
    var digits := ReadDigits(b, s);
    if digits.Err? {
      return Err(digits.error);
    }
    var result: int := digits.value;
    if signed && result >= Rollover(b, n) {
      result := result - Capacity(b, n);
    }
    return Ok(result);
  }

  /** What `parse<N,T>` can return: `[0, B^N)` for an unsigned `T`, and
      `[rollover - B^N, rollover)` for a signed one. */
  predicate InRange(b: Base, n: nat, signed: bool, x: int) {
    if signed then Rollover(b, n) - Capacity(b, n) <= x < Rollover(b, n)
    else 0 <= x < Capacity(b, n)
  }

  lemma DecodeInRange(b: Base, n: nat, signed: bool, s: string)
    requires b.Valid()
    ensures Decode(b, n, signed, s).Ok? ==> InRange(b, n, signed, Decode(b, n, signed, s).value)
  {
    if Decode(b, n, signed, s).Ok? {
      FoldBound(b, s);
      PowMonotone(b.radix, |s|, n);
      RolloverBounds(b, n);
    }
  }

  /** The error cases of `parse<N,T>`: too long is `StringSize` whatever the
      characters; otherwise a character outside the alphabet is
      `ForeignDigit`; the empty string is 0 (for `N >= 1`). */
  lemma DecodeErrors(b: Base, n: nat, signed: bool, s: string)
    requires b.Valid()
    ensures |s| > n ==> Decode(b, n, signed, s) == Err(StringSize)
    ensures |s| <= n ==> (Decode(b, n, signed, s) == Err(ForeignDigit) <==> exists i :: 0 <= i < |s| && !IsDigit(b, s[i]))
    ensures n >= 1 ==> Decode(b, n, signed, "") == Ok(0)
  {
    RolloverBounds(b, n);
  }

  /* ~~ Fixed-width encoding: toString<N,T> ~~~~~~~~~~~~~~~~~~~~~~~~~~~~~~~ */

  /** The `n` least significant base-B digits of `x`, most significant first. */
  function Digits(b: Base, x: nat, n: nat): (s: string)
    requires b.Valid()
    ensures |s| == n
  {
    if n == 0 then []
    else
      DivBounds(x, b.radix);
      Digits(b, x / b.radix, n - 1) + [b.alphabet[x % b.radix]]
  }

  lemma DigitsSplit(b: Base, x: nat, m: nat)
    requires b.Valid() && m > 0
    ensures x / b.radix >= 0
    ensures Digits(b, x, m) == Digits(b, x / b.radix, m - 1) + [b.alphabet[x % b.radix]]
  {
    DivBounds(x, b.radix);
  }

  /** One step of `toString<N,T>`: the lowest of `m` digits moves from the
      digit string to the front of the already written tail. */
  lemma PrependDigit(b: Base, x: nat, m: nat, tail: string)
    requires b.Valid() && m > 0
    ensures 0 <= x % b.radix < b.radix && x / b.radix >= 0
    ensures Digits(b, x, m) + tail == Digits(b, x / b.radix, m - 1) + ([b.alphabet[x % b.radix]] + tail)
  {
    DigitsSplit(b, x, m);
    AppendAssoc(Digits(b, x / b.radix, m - 1), [b.alphabet[x % b.radix]], tail);
  }

  /** What `toString<N,T>` needs to stay inside the alphabet: a negative
      input is first shifted by `B^N`, so it must not lie below `-B^N`; an
      unsigned target takes no negative input. */
  predicate Encodable(b: Base, n: nat, signed: bool, x: int) {
    if signed then x + Capacity(b, n) >= 0 else x >= 0
  }

  /** `toString<N,T>(x)`: exactly N digits of `x` (shifted by `B^N` when
      negative and `T` is signed), most significant first. */
  function Encode(b: Base, n: nat, signed: bool, x: int): string
    requires b.Valid() && Encodable(b, n, signed, x)
  {
    Digits(b, if signed && x < 0 then x + Capacity(b, n) else x, n)
  }

  /** `toString<N,T>`: fills a preallocated string of N zero digits from its
      last position backwards. */
  method ToString(b: Base, n: nat, signed: bool, x0: int) returns (s: string)
    requires b.Valid() && Encodable(b, n, signed, x0)
    ensures s == Encode(b, n, signed, x0)
  {
    var x: nat := if signed && x0 < 0 then x0 + Capacity(b, n) else x0;
    ghost var target := Encode(b, n, signed, x0);
    var result := new char[n](_ => b.alphabet[0]);
    var i := 0;
    while i < n
      invariant 0 <= i <= n
      invariant target == Digits(b, x, n - i) + result[n - i..]
    {
      ghost var tail := result[n - i..];
      PrependDigit(b, x, n - i, tail);
      var digit := b.alphabet[x % b.radix];
      result[n - 1 - i] := digit;
      assert result[n - 1 - i..] == [digit] + tail by {
        assert result[n - i..] == tail;
      }
      x := x / b.radix;
      i := i + 1;
    }
    s := result[..];
  }

  /* ~~ toString<N,T> of an `int` argument ~~~~~~~~~~~~~~~~~~~~~~~~~~~~~~~ */

  /** The 64-bit `std::size_t` an `int` becomes when it meets `B`, which
      is a `std::size_t`. */
  function SizeTOf(v: int): nat {
    v % 0x1_0000_0000_0000_0000
  }

  /** An integer stored into a 32-bit `int`: modulo 2^32, two's
      complement. */
  function Int32Of(v: int): (w: int)
    ensures -0x8000_0000 <= w < 0x8000_0000
    ensures -0x8000_0000 <= v < 0x8000_0000 ==> w == v
  {
    var u := v % 0x1_0000_0000;
    if u < 0x8000_0000 then u else u - 0x1_0000_0000
  }

  /** The `n` digits the loop of `toString<N,T>` writes for an `int`
      argument: `x % B` and `x / B` are computed in `std::size_t`, and the
      quotient is stored back into the `int`. */
  function IntDigits(b: Base, x: int, n: nat): (s: string)
    requires b.Valid()
    ensures |s| == n
    decreases n
  {
    if n == 0 then []
    else IntDigits(b, Int32Of(SizeTOf(x) / b.radix), n - 1) + [b.alphabet[SizeTOf(x) % b.radix]]
  }

  /** `toString<N,T>(x)` for an `int` `x`; with a signed `T` a negative `x`
      first has `B^N` added, also through `std::size_t`. Defined for every
      32-bit input, including those `Encodable` leaves out. */
  function EncodeInt(b: Base, n: nat, signed: bool, x: int): string
    requires b.Valid()
  {
    IntDigits(b, if signed && x < 0 then Int32Of(x + Capacity(b, n)) else x, n)
  }

  /** On a non-negative `int` the `std::size_t` detour changes nothing. */
  lemma {:induction false} IntDigitsOfNat(b: Base, x: nat, n: nat)
    requires b.Valid() && x < 0x8000_0000
    ensures IntDigits(b, x, n) == Digits(b, x, n)
    decreases n
  {
    if n > 0 {
      DivBounds(x, b.radix);
      IntDigitsOfNat(b, x / b.radix, n - 1);
    }
  }

  /** On every input `Encodable` admits, the `int` instance of
      `toString<N,T>` writes exactly the codec's encoding. */
  lemma EncodeIntAgrees(b: Base, n: nat, signed: bool, x: int)
    requires b.Valid() && Encodable(b, n, signed, x)
    requires x < 0x8000_0000 && Capacity(b, n) <= 0x8000_0000
    ensures EncodeInt(b, n, signed, x) == Encode(b, n, signed, x)
  {
    var y := if signed && x < 0 then x + Capacity(b, n) else x;
    IntDigitsOfNat(b, y, n);
  }

  lemma {:induction false} FoldDigits(b: Base, y: nat, n: nat)
    requires b.Valid() && y < Pow(b.radix, n)
    ensures AllDigits(b, Digits(b, y, n))
    ensures Fold(b, Digits(b, y, n)) == y
    decreases n
  {
    if n > 0 {
      var q, r := y / b.radix, y % b.radix;
      assert y == b.radix * q + r && 0 <= r < b.radix && q >= 0 by {
        DivMod(y, b.radix);
        DivBounds(y, b.radix);
      }
      assert q < Pow(b.radix, n - 1) by {
        DivLess(y, b.radix, Pow(b.radix, n - 1));
      }
      FoldDigits(b, q, n - 1);
      var d := Digits(b, y, n);
      assert d == Digits(b, q, n - 1) + [b.alphabet[r]] by {
        DigitsSplit(b, y, n);
      }
      assert d[..n - 1] == Digits(b, q, n - 1);
      DigitValueAt(b, r);
    }
  }

  /** Round trip: every value `parse<N,T>` can produce is printed by
      `toString<N,T>` as a string that `parse<N,T>` reads back. */
  lemma DecodeEncode(b: Base, n: nat, signed: bool, x: int)
    requires b.Valid() && InRange(b, n, signed, x)
    ensures Encodable(b, n, signed, x)
    ensures |Encode(b, n, signed, x)| == n
    ensures Decode(b, n, signed, Encode(b, n, signed, x)) == Ok(x)
  {
    RolloverBounds(b, n);
    var y := if signed && x < 0 then x + Capacity(b, n) else x;
    assert 0 <= y < Pow(b.radix, n);
    FoldDigits(b, y, n);
    assert Signed(b, n, signed, y) == x;
  }

  lemma {:induction false} DigitsOfFold(b: Base, s: string)
    requires b.Valid() && AllDigits(b, s)
    ensures Digits(b, Fold(b, s), |s|) == s
    decreases |s|
  {
    if s != [] {
      var init, c := s[..|s| - 1], s[|s| - 1];
      assert AllDigits(b, init);
      DigitValueOfDigit(b, c);
      DivModUnique(Fold(b, s), b.radix, Fold(b, init), DigitValue(b, c));
      DigitsOfFold(b, init);
      assert s == init + [c];
    }
  }

  /** The other direction: a full-width digit string is printed back
      unchanged from the value it decodes to. */
  lemma EncodeDecode(b: Base, n: nat, signed: bool, s: string)
    requires b.Valid() && |s| == n && AllDigits(b, s)
    ensures Decode(b, n, signed, s).Ok?
    ensures Encodable(b, n, signed, Decode(b, n, signed, s).value)
    ensures Encode(b, n, signed, Decode(b, n, signed, s).value) == s
  {
    FoldBound(b, s);
    DigitsOfFold(b, s);
  }

  /* ~~ Variable width: parse_n / toString_n ~~~~~~~~~~~~~~~~~~~~~~~~~~~~~~ */

  /** `parse_n<T>(str)`: at most as many digits as fit into `T`, folded,
      with no sign handling. `T` must be unsigned. */
  function DecodeN(b: Base, t: IntType, s: string): Result<nat, CodecError>
    requires b.Valid()
  {
    if |s| > MaxDigits(b.radix, t) then Err(StringSize)
    else if !AllDigits(b, s) then Err(ForeignDigit)
    else Ok(Fold(b, s))
  }

  /** `parse_n<T>`: the digit-count check, then the digit loop. */
  method ParseN(b: Base, t: IntType, s: string) returns (r: Result<nat, CodecError>)
    requires b.Valid()
    requires t.Bool? || !t.signed
    ensures r == DecodeN(b, t, s)
  {
    if |s| > MaxDigits(b.radix, t) {
      return Err(StringSize);
    }
    r := ReadDigits(b, s);
  }

  /** A successful `parse_n<T>` never exceeds the maximum of `T`. */
  lemma DecodeNFits(b: Base, t: IntType, s: string)
    requires b.Valid()
    ensures DecodeN(b, t, s).Ok? ==> DecodeN(b, t, s).value <= UnsignedMax(t)
  {
    if DecodeN(b, t, s).Ok? {
      FoldBound(b, s);
      PowMonotone(b.radix, |s|, MaxDigits(b.radix, t));
    }
  }

  /** `toString_n(x)`: the shortest digit string of `x`, at least one digit. */
  function EncodeN(b: Base, x: nat): string
    requires b.Valid()
    decreases x
  {
    if x < b.radix then [b.alphabet[x]]
    else
      DivBounds(x, b.radix);
      EncodeN(b, x / b.radix) + [b.alphabet[x % b.radix]]
  }

  /** One step of `toString_n`: the digits of `x` are those of `x / B`
      (none once that is 0) followed by the digit `x % B`. */
  lemma EncodeNStep(b: Base, x: nat)
    requires b.Valid()
    ensures 0 <= x % b.radix < b.radix && 0 <= x / b.radix
    ensures x > 0 ==> x / b.radix < x
    ensures EncodeN(b, x) == (if x / b.radix == 0 then [] else EncodeN(b, x / b.radix)) + [b.alphabet[x % b.radix]]
  {
    DivBounds(x, b.radix);
  }

  /** `toString_n`: a do-while loop prepending the least significant
      remaining digit. */
  method ToStringN(b: Base, x0: nat) returns (s: string)
    requires b.Valid()
    ensures s == EncodeN(b, x0)
  {
    var x: nat := x0;
    s := [];
    assert 0 <= x % b.radix < b.radix && 0 <= x / b.radix by { DivBounds(x, b.radix); }
    assert EncodeN(b, x0) == (if x / b.radix == 0 then [] else EncodeN(b, x / b.radix)) + ([b.alphabet[x % b.radix]] + s) by {
      EncodeNStep(b, x);
    }
    s := [b.alphabet[x % b.radix]] + s;
    x := x / b.radix;
    while x > 0
      invariant EncodeN(b, x0) == (if x == 0 then [] else EncodeN(b, x)) + s
      decreases x
    {
      assert 0 <= x % b.radix < b.radix && 0 <= x / b.radix < x by { DivBounds(x, b.radix); }
      assert EncodeN(b, x0) == (if x / b.radix == 0 then [] else EncodeN(b, x / b.radix)) + ([b.alphabet[x % b.radix]] + s) by {
        EncodeNStep(b, x);
        AppendAssoc(if x / b.radix == 0 then [] else EncodeN(b, x / b.radix), [b.alphabet[x % b.radix]], s);
      }
      s := [b.alphabet[x % b.radix]] + s;
      x := x / b.radix;
    }
  }

  /** The last step of `toString_n`: the digits of `x >= B` are those of
      `x / B` followed by the digit `x % B`. */
  lemma EncodeNSplit(b: Base, x: nat)
    requires b.Valid() && x >= b.radix
    ensures x == b.radix * (x / b.radix) + x % b.radix
    ensures 0 <= x % b.radix < b.radix && 1 <= x / b.radix < x
    ensures EncodeN(b, x) == EncodeN(b, x / b.radix) + [b.alphabet[x % b.radix]]
  {
    DivMod(x, b.radix);
    DivBounds(x, b.radix);
  }

  /** `toString_n` emits at least one digit, all from the alphabet, and they
      fold back to `x`. */
  lemma {:induction false} EncodeNDigits(b: Base, x: nat)
    requires b.Valid()
    ensures |EncodeN(b, x)| >= 1 && AllDigits(b, EncodeN(b, x))
    ensures Fold(b, EncodeN(b, x)) == x
    decreases x
  {
    var s := EncodeN(b, x);
    if x < b.radix {
      DigitValueAt(b, x);
      assert s[..0] == [];
    } else {
      var q, r := x / b.radix, x % b.radix;
      EncodeNSplit(b, x);
      EncodeNDigits(b, q);
      assert s[..|s| - 1] == EncodeN(b, q);
      DigitValueAt(b, r);
    }
  }

  /** No leading zero digit: 0 prints as the single zero digit, any other
      value starts with a non-zero digit. */
  lemma {:induction false} EncodeNLeading(b: Base, x: nat)
    requires b.Valid()
    ensures x == 0 ==> EncodeN(b, x) == [b.alphabet[0]]
    ensures x > 0 ==> EncodeN(b, x)[0] != b.alphabet[0]
    decreases x
  {
    if x >= b.radix {
      EncodeNSplit(b, x);
      EncodeNLeading(b, x / b.radix);
    }
  }

  /** `toString_n` prints exactly as many digits as `x` needs:
      `B^(k-1) <= x < B^k` for `k` digits. */
  lemma {:induction false} EncodeNLength(b: Base, x: nat)
    requires b.Valid() && x > 0
    ensures |EncodeN(b, x)| >= 1
    ensures Pow(b.radix, |EncodeN(b, x)| - 1) <= x < Pow(b.radix, |EncodeN(b, x)|)
    decreases x
  {
    if x >= b.radix {
      var q, r := x / b.radix, x % b.radix;
      EncodeNSplit(b, x);
      EncodeNLength(b, q);
      PowDigitRange(b.radix, |EncodeN(b, q)|, q, r);
    }
  }

  /** `parse_n` inverts `toString_n` exactly for the values below
      `B^MaxDigits`; larger values print too many digits and are rejected
      with `StringSize`. */
  lemma DecodeNEncodeN(b: Base, t: IntType, x: nat)
    requires b.Valid() && MaxDigits(b.radix, t) >= 1
    ensures DecodeN(b, t, EncodeN(b, x)) ==
      if x < Pow(b.radix, MaxDigits(b.radix, t)) then Ok(x) else Err(StringSize)
  {
    EncodeNDigits(b, x);
    if x > 0 {
      EncodeNLength(b, x);
    }
    var k, d := |EncodeN(b, x)|, MaxDigits(b.radix, t);
    if x < Pow(b.radix, d) {
      PowMonotone(b.radix, d, k - 1);
      assert k <= d;
    } else {
      PowMonotone(b.radix, 0, d);
      PowMonotone(b.radix, k, d);
      assert k > d;
    }
  }

  lemma UInt32Max()
    ensures UnsignedMax(UInt32) == 4294967295
  {
    assert Pow(2, 8) == 256;
    PowAdd(2, 8, 8);
    PowAdd(2, 16, 16);
  }

  /** Nine decimal digits always fit into 32 bits; ten do not. */
  lemma MaxDigitsUInt32()
    ensures MaxDigits(10, UInt32) == 9
  {
    UInt32Max();
    LargestDigitCountUnique(10, 4294967295, 9);
  }

  lemma SizeTMax()
    ensures UnsignedMax(SizeT) == 18446744073709551615
  {
    UInt32Max();
    PowAdd(2, 32, 32);
  }

  /** Nineteen decimal digits always fit into 64 bits; twenty do not. */
  lemma MaxDigitsSizeT()
    ensures MaxDigits(10, SizeT) == 19
  {
    SizeTMax();
    assert Pow(10, 9) == 1000000000;
    assert Pow(10, 10) == 10000000000;
    PowAdd(10, 9, 10);
    PowAdd(10, 10, 10);
    LargestDigitCountUnique(10, 18446744073709551615, 19);
  }

  /** 4294967295 needs ten decimal digits, one more than the bound for a
      32-bit type, so `parse_n<uint32_t>` rejects what `toString_n` printed. */
  lemma DecodeNRejectsUInt32Max()
    ensures DecodeN(Base10, UInt32, EncodeN(Base10, 4294967295)) == Err(StringSize)
  {
    MaxDigitsUInt32();
    UInt32Max();
    DecodeNEncodeN(Base10, UInt32, 4294967295);
  }

  /* ~~ Records: Base36::parseTuples ~~~~~~~~~~~~~~~~~~~~~~~~~~~~~~~~~~~~~~ */

  /** One field of a record: `Number_t<width, signed-or-unsigned>`. */
  datatype Field = Field(width: nat, signed: bool)

  /** Why `parseTuples` failed: the text is not a whole number of records,
      or a field did not decode. */
  datatype TupleError = TupleLength | TupleField(cause: CodecError)

  function RecordWidth(fields: seq<Field>): nat {
    if fields == [] then 0 else fields[0].width + RecordWidth(fields[1..])
  }

  /** Decodes one record of consecutive fixed-width fields. */
  function DecodeRecord(b: Base, fields: seq<Field>, s: string): Result<seq<int>, CodecError>
    requires |s| == RecordWidth(fields)
  {
    if fields == [] then Ok([])
    else
      var w := fields[0].width;
      match Decode(b, w, fields[0].signed, s[..w])
      case Err(e) => Err(e)
      case Ok(v) =>
        match DecodeRecord(b, fields[1..], s[w..])
        case Err(e) => Err(e)
        case Ok(vs) => Ok([v] + vs)
  }

  /** Decodes consecutive records for as long as a whole record remains. */
  function DecodeRecords(b: Base, fields: seq<Field>, s: string): Result<seq<seq<int>>, CodecError>
    requires RecordWidth(fields) > 0
    decreases |s|
  {
    var w := RecordWidth(fields);
    if |s| < w then Ok([])
    else
      match DecodeRecord(b, fields, s[..w])
      case Err(e) => Err(e)
      case Ok(r) =>
        match DecodeRecords(b, fields, s[w..])
        case Err(e) => Err(e)
        case Ok(rs) => Ok([r] + rs)
  }

  /** `Base36::parseTuples` as its call sites use it: the text must be a
      whole number of records, each field is decoded with the fixed-width
      decoder, and any failure fails the whole call. */
  function ParseTuples(b: Base, fields: seq<Field>, s: string): Result<seq<seq<int>>, TupleError>
    requires RecordWidth(fields) > 0
  {
    if |s| % RecordWidth(fields) != 0 then Err(TupleLength)
    else
      match DecodeRecords(b, fields, s)
      case Err(e) => Err(TupleField(e))
      case Ok(rs) => Ok(rs)
  }

  /** Each field's value is within the range its decoder can produce. */
  predicate RecordInRange(b: Base, fields: seq<Field>, values: seq<int>) {
    |values| == |fields| &&
    forall j :: 0 <= j < |fields| ==> InRange(b, fields[j].width, fields[j].signed, values[j])
  }

  /** The printing side of a record: the fields' fixed-width encodings. */
  function EncodeRecord(b: Base, fields: seq<Field>, values: seq<int>): (s: string)
    requires b.Valid() && RecordInRange(b, fields, values)
    ensures |s| == RecordWidth(fields)
  {
    if fields == [] then []
    else
      DecodeEncode(b, fields[0].width, fields[0].signed, values[0]);
      Encode(b, fields[0].width, fields[0].signed, values[0]) + EncodeRecord(b, fields[1..], values[1..])
  }

  function EncodeTuples(b: Base, fields: seq<Field>, records: seq<seq<int>>): string
    requires b.Valid()
    requires forall i :: 0 <= i < |records| ==> RecordInRange(b, fields, records[i])
  {
    if records == [] then []
    else EncodeRecord(b, fields, records[0]) + EncodeTuples(b, fields, records[1..])
  }

  lemma {:induction false} EncodeTuplesLength(b: Base, fields: seq<Field>, records: seq<seq<int>>)
    requires b.Valid()
    requires forall i :: 0 <= i < |records| ==> RecordInRange(b, fields, records[i])
    ensures |EncodeTuples(b, fields, records)| == |records| * RecordWidth(fields)
    decreases |records|
  {
    if records != [] {
      EncodeTuplesLength(b, fields, records[1..]);
      MulSucc(|records| - 1, RecordWidth(fields));
    }
  }

  lemma {:induction false} DecodeEncodeRecord(b: Base, fields: seq<Field>, values: seq<int>)
    requires b.Valid() && RecordInRange(b, fields, values)
    ensures DecodeRecord(b, fields, EncodeRecord(b, fields, values)) == Ok(values)
    decreases |fields|
  {
    if fields != [] {
      RecordInRangeSplit(b, fields, values);
      DecodeEncodeRecord(b, fields[1..], values[1..]);
      DecodeEncodeField(b, fields, values);
    }
  }

  /** The inductive step of `DecodeEncodeRecord`: the first field round
      trips, and the rest is assumed to. */
  lemma DecodeEncodeField(b: Base, fields: seq<Field>, values: seq<int>)
    requires b.Valid() && fields != [] && RecordInRange(b, fields, values)
    requires RecordInRange(b, fields[1..], values[1..])
    requires DecodeRecord(b, fields[1..], EncodeRecord(b, fields[1..], values[1..])) == Ok(values[1..])
    ensures DecodeRecord(b, fields, EncodeRecord(b, fields, values)) == Ok(values)
  {
    var w, sg := fields[0].width, fields[0].signed;
    DecodeEncode(b, w, sg, values[0]);
    EncodeRecordCons(b, fields, values);
    DecodeRecordCons(b, fields, Encode(b, w, sg, values[0]), EncodeRecord(b, fields[1..], values[1..]), values);
  }

  lemma EncodeRecordCons(b: Base, fields: seq<Field>, values: seq<int>)
    requires b.Valid() && fields != [] && RecordInRange(b, fields, values)
    requires Encodable(b, fields[0].width, fields[0].signed, values[0])
    requires RecordInRange(b, fields[1..], values[1..])
    ensures EncodeRecord(b, fields, values)
         == Encode(b, fields[0].width, fields[0].signed, values[0]) + EncodeRecord(b, fields[1..], values[1..])
  {
  }

  lemma RecordInRangeSplit(b: Base, fields: seq<Field>, values: seq<int>)
    requires fields != [] && RecordInRange(b, fields, values)
    ensures InRange(b, fields[0].width, fields[0].signed, values[0])
    ensures RecordInRange(b, fields[1..], values[1..])
  {
    assert forall j :: 1 <= j < |fields| ==> fields[1..][j - 1] == fields[j] && values[1..][j - 1] == values[j];
  }

  /** A field's digits followed by the rest's decode as that field's value,
      then the rest's values. */
  lemma DecodeRecordCons(b: Base, fields: seq<Field>, head: string, tail: string, values: seq<int>)
    requires fields != [] && |head| == fields[0].width && |tail| == RecordWidth(fields[1..])
    requires values != [] && Decode(b, fields[0].width, fields[0].signed, head) == Ok(values[0])
    requires DecodeRecord(b, fields[1..], tail) == Ok(values[1..])
    ensures DecodeRecord(b, fields, head + tail) == Ok(values)
  {
    SplitAppend(head, tail);
    assert values == [values[0]] + values[1..];
  }

  /** A record of two fields: each field decodes from its own part of the
      text, and the first failure is the record's. */
  lemma DecodeRecordPair(b: Base, f: Field, g: Field, s: string)
    requires |s| == f.width + g.width
    ensures RecordWidth([f, g]) == |s|
    ensures var x, y := Decode(b, f.width, f.signed, s[..f.width]), Decode(b, g.width, g.signed, s[f.width..]);
      DecodeRecord(b, [f, g], s) == if x.Err? then Err(x.error) else if y.Err? then Err(y.error) else Ok([x.value, y.value])
  {
    assert [f, g][1..] == [g] && [g][1..] == [];
    assert RecordWidth([g]) == g.width + RecordWidth([]);
    var rest := s[f.width..];
    assert rest[..g.width] == rest && rest[g.width..] == [];
    assert DecodeRecord(b, [], rest[g.width..]) == Ok([]);
    var y := Decode(b, g.width, g.signed, rest);
    assert DecodeRecord(b, [g], rest) == if y.Err? then Err(y.error) else Ok([y.value]) by {
      if y.Ok? {
        assert [y.value] + [] == [y.value];
      }
    }
    var x := Decode(b, f.width, f.signed, s[..f.width]);
    assert DecodeRecord(b, [f, g], s) == match x
      case Err(e) => Err(e)
      case Ok(v) => (match DecodeRecord(b, [g], rest) case Err(e) => Err(e) case Ok(vs) => Ok([v] + vs));
    if x.Ok? && y.Ok? {
      assert [x.value] + [y.value] == [x.value, y.value];
    }
  }

  /** A record followed by more records decodes as that record, then the
      rest. */
  lemma DecodeRecordsCons(b: Base, fields: seq<Field>, first: string, rest: string, r: seq<int>, rs: seq<seq<int>>)
    requires RecordWidth(fields) > 0 && |first| == RecordWidth(fields)
    requires DecodeRecord(b, fields, first) == Ok(r) && DecodeRecords(b, fields, rest) == Ok(rs)
    ensures DecodeRecords(b, fields, first + rest) == Ok([r] + rs)
  {
    var s := first + rest;
    assert s[..|first|] == first && s[|first|..] == rest;
  }

  lemma {:induction false} DecodeEncodeRecords(b: Base, fields: seq<Field>, records: seq<seq<int>>)
    requires b.Valid() && RecordWidth(fields) > 0
    requires forall i :: 0 <= i < |records| ==> RecordInRange(b, fields, records[i])
    ensures DecodeRecords(b, fields, EncodeTuples(b, fields, records)) == Ok(records)
    decreases |records|
  {
    if records != [] {
      DecodeEncodeRecords(b, fields, records[1..]);
      DecodeEncodeStep(b, fields, records);
    }
  }

  /** The inductive step of `DecodeEncodeRecords`: one more record in
      front of a list that already round-trips. */
  lemma DecodeEncodeStep(b: Base, fields: seq<Field>, records: seq<seq<int>>)
    requires b.Valid() && RecordWidth(fields) > 0 && records != []
    requires forall i :: 0 <= i < |records| ==> RecordInRange(b, fields, records[i])
    requires DecodeRecords(b, fields, EncodeTuples(b, fields, records[1..])) == Ok(records[1..])
    ensures DecodeRecords(b, fields, EncodeTuples(b, fields, records)) == Ok(records)
  {
    var first := EncodeRecord(b, fields, records[0]);
    var rest := EncodeTuples(b, fields, records[1..]);
    assert EncodeTuples(b, fields, records) == first + rest;
    DecodeEncodeRecord(b, fields, records[0]);
    DecodeRecordsCons(b, fields, first, rest, records[0], records[1..]);
    assert records == [records[0]] + records[1..];
  }

  /** Round trip of the record codec: in-range records printed field by
      field are decoded back exactly. */
  lemma ParseTuplesEncode(b: Base, fields: seq<Field>, records: seq<seq<int>>)
    requires b.Valid() && RecordWidth(fields) > 0
    requires forall i :: 0 <= i < |records| ==> RecordInRange(b, fields, records[i])
    ensures ParseTuples(b, fields, EncodeTuples(b, fields, records)) == Ok(records)
  {
    EncodeTuplesLength(b, fields, records);
    MulMod(|records|, RecordWidth(fields));
    DecodeEncodeRecords(b, fields, records);
  }

  /** A record decodes to one value per field, each within its range. */
  lemma {:induction false} DecodeRecordShape(b: Base, fields: seq<Field>, s: string)
    requires b.Valid() && |s| == RecordWidth(fields)
    ensures DecodeRecord(b, fields, s).Ok? ==> RecordInRange(b, fields, DecodeRecord(b, fields, s).value)
    decreases |fields|
  {
    if fields != [] && DecodeRecord(b, fields, s).Ok? {
      var w := fields[0].width;
      DecodeInRange(b, w, fields[0].signed, s[..w]);
      DecodeRecordShape(b, fields[1..], s[w..]);
    }
  }

  /** Decoding consumes one record's width per record, leaving less than
      one record over, and every record is within range. */
  lemma {:induction false} DecodeRecordsShape(b: Base, fields: seq<Field>, s: string)
    requires b.Valid() && RecordWidth(fields) > 0
    ensures var w := RecordWidth(fields);
      DecodeRecords(b, fields, s).Ok? ==>
        var rs := DecodeRecords(b, fields, s).value;
        |rs| * w <= |s| < |rs| * w + w &&
        forall i :: 0 <= i < |rs| ==> RecordInRange(b, fields, rs[i])
    decreases |s|
  {
    var w := RecordWidth(fields);
    if |s| >= w && DecodeRecords(b, fields, s).Ok? {
      var rs := DecodeRecords(b, fields, s).value;
      DecodeRecordsShape(b, fields, s[w..]);
      DecodeRecordShape(b, fields, s[..w]);
      assert rs[1..] == DecodeRecords(b, fields, s[w..]).value;
      MulSucc(|rs| - 1, w);
    }
  }

  /** A successful `parseTuples` yields exactly `|s| / width` records, each
      within range; a text that is not a whole number of records is
      `TupleLength`. */
  lemma ParseTuplesShape(b: Base, fields: seq<Field>, s: string)
    requires b.Valid() && RecordWidth(fields) > 0
    ensures |s| % RecordWidth(fields) != 0 ==> ParseTuples(b, fields, s) == Err(TupleLength)
    ensures ParseTuples(b, fields, s).Ok? ==>
      var rs := ParseTuples(b, fields, s).value;
      |rs| * RecordWidth(fields) == |s| &&
      forall i :: 0 <= i < |rs| ==> RecordInRange(b, fields, rs[i])
  {
    var w := RecordWidth(fields);
    DecodeRecordsShape(b, fields, s);
    if ParseTuples(b, fields, s).Ok? {
      var rs := ParseTuples(b, fields, s).value;
      DivModUnique(|s|, w, |rs|, |s| - |rs| * w);
    }
  }
}
