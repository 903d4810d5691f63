/**
 * The stream's default formatting of a whole number that fits six
 * significant digits, as `operator<<` writes a `float` or `double` entry
 * of an `Affine` matrix: the decimal digits, after a '-' when it is
 * negative. Such a print reads back exactly under the float reader.
 */
module NumberText {
  import opened Results
  import opened ParserBase
  import Arith
  import Numeral

  /** A whole number `x` of magnitude `n` below a million, printed as
      the digits of `n` after a '-' when it is negative, reads back as
      `x` (a negative zero prints as "-0" and reads back as zero). */
  lemma WholeReadsBack(x: real, s: string, n: nat)
    requires n < 1_000_000
    requires (x == n as real && s == Decimal10(n)) ||
             (x == -(n as real) && s == "-" + Decimal10(n))
    ensures FloatParseStrict(s) == Ok(x)
  {
    if x == n as real && s == Decimal10(n) {
      PositiveReads(s, n);
    } else {
      NegativeReads(s, n);
    }
  }

  /** The print of a non-negative whole number is its digits. */
  lemma PositiveReads(s: string, n: nat)
    requires n < 1_000_000 && s == Decimal10(n)
    ensures FloatParseStrict(s) == Ok(n as real)
  {
    ShortDecimalReads(n);
  }

  /** The print of a negative whole number is a '-' before the digits
      of its magnitude. */
  lemma NegativeReads(s: string, n: nat)
    requires n < 1_000_000 && s == "-" + Decimal10(n)
    ensures FloatParseStrict(s) == Ok(-(n as real))
  {
    ShortNegativeReads(n);
  }

  /** The decimal print of a count below a million reads back as the
      count. */
  lemma ShortDecimalReads(n: nat)
    requires n < 1_000_000
    ensures FloatParseStrict(Decimal10(n)) == Ok(n as real)
  {
    var d := Decimal10(n);
    ShortDecimal(n);
    Numeral.MaxDigitsSizeT();
    DecimalWhole(true, Numeral.SizeT, d);
  }

  /** With a '-' in front, the same print reads back as the negated
      count. */
  lemma ShortNegativeReads(n: nat)
    requires n < 1_000_000
    ensures FloatParseStrict("-" + Decimal10(n)) == Ok(-(n as real))
  {
    ShortDecimalReads(n);
    ShortDecimal(n);
    SignForms(Decimal10(n));
    PrintNegated(n);
  }

  /** `FloatStrictNegated` for the decimal print of a count. */
  lemma PrintNegated(n: nat)
    requires !HasSign(Decimal10(n)) && FloatParseStrict(Decimal10(n)) == Ok(n as real)
    ensures FloatParseStrict("-" + Decimal10(n)) == Ok(-(n as real))
  {
    FloatStrictNegated(Decimal10(n), n as real);
  }

  /** The decimal print of a count below a million is at most six digits. */
  lemma ShortDecimal(n: nat)
    requires n < 1_000_000
    ensures Numeral.AllDigits(Numeral.Base10, Decimal10(n)) && |Decimal10(n)| <= 6
    ensures Numeral.Fold(Numeral.Base10, Decimal10(n)) == n
  {
    Numeral.Base10Valid();
    Numeral.EncodeNDigits(Numeral.Base10, n);
    if n > 0 {
      var d := Decimal10(n);
      Numeral.EncodeNLength(Numeral.Base10, n);
      if |d| > 6 {
        assert Arith.Pow(10, 6) == 1_000_000;
        Arith.PowMonotone(10, 6, |d| - 1);
        assert false;
      }
    }
  }
}
