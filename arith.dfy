/**
 * Small facts about multiplication, Euclidean division and powers, each
 * proved on its own so that the codec proofs never ask the solver for
 * nonlinear reasoning.
 */
module Arith {

  function Pow(b: nat, n: nat): (p: nat)
    ensures b > 0 ==> p > 0
  {
    if n == 0 then 1 else b * Pow(b, n - 1)
  }

  lemma MulMono(d: int, a: int, c: int)
    requires d >= 0
    ensures a <= c ==> d * a <= d * c
  {
    if a <= c {
      assert d * c - d * a == d * (c - a);
    }
  }

  lemma MulSign(d: int, k: int)
    requires d > 0
    ensures k >= 1 ==> d * k >= d
    ensures k <= -1 ==> d * k <= -d
  {
    MulMono(d, 1, k);
    MulMono(d, k, -1);
  }

  /** Euclidean division is determined by its quotient and remainder. */
  lemma DivModUnique(y: int, d: int, q: int, r: int)
    requires d > 0 && 0 <= r < d && y == d * q + r
    ensures y / d == q && y % d == r
  {
    var k := y / d - q;
    assert d * k == r - y % d;
    MulSign(d, k);
  }

  lemma DivMod(y: int, d: int)
    requires d > 0
    ensures y == d * (y / d) + y % d && 0 <= y % d < d
  {
  }

  lemma DivBounds(x: int, d: int)
    requires x >= 0 && d > 0
    ensures 0 <= x / d <= x
    ensures x >= d ==> x / d >= 1
    ensures d > 1 && x > 0 ==> x / d < x
    ensures x < d ==> x / d == 0 && x % d == x
  {
    var q := x / d;
    assert x == d * q + x % d;
    MulSign(d, q);
    MulMono(q, 2, d);
  }

  /** `x < d * m` bounds the quotient by `m`. */
  lemma DivLess(x: int, d: int, m: int)
    requires x >= 0 && d > 0
    ensures x < d * m ==> x / d < m
  {
    var q := x / d;
    assert x == d * q + x % d;
    MulMono(d, m, q);
  }

  /** Appending a digit `e < d` to a value below `c` stays below `d * c`. */
  lemma DigitStep(d: nat, a: nat, e: nat, c: nat)
    requires e < d && a < c
    ensures d * a + e < d * c
  {
    MulMono(d, a + 1, c);
  }

  lemma PowSucc(b: nat, n: nat)
    ensures Pow(b, n + 1) == b * Pow(b, n)
  {
  }

  lemma {:induction false} PowStrictlyIncreasing(b: nat, i: nat, j: nat)
    requires b > 1 && i < j
    ensures Pow(b, i) < Pow(b, j)
    decreases j - i
  {
    MulMono(Pow(b, j - 1), 2, b);
    if i < j - 1 {
      PowStrictlyIncreasing(b, i, j - 1);
    }
  }

  lemma PowMonotone(b: nat, i: nat, j: nat)
    requires b > 1
    ensures i <= j ==> Pow(b, i) <= Pow(b, j)
    ensures i < j ==> Pow(b, i) < Pow(b, j)
  {
    if i < j {
      PowStrictlyIncreasing(b, i, j);
    }
  }

  lemma {:induction false} PowAdd(b: nat, i: nat, j: nat)
    ensures Pow(b, i + j) == Pow(b, i) * Pow(b, j)
    decreases j
  {
    if j > 0 {
      PowAdd(b, i, j - 1);
      var p, q := Pow(b, i), Pow(b, j - 1);
      calc {
        Pow(b, i + j);
        b * Pow(b, i + j - 1);
        b * (p * q);
        p * (b * q);
        Pow(b, i) * Pow(b, j);
      }
    }
  }

  /** A value of `k` digits (`B^(k-1) <= q < B^k`) followed by one more
      digit has `k + 1` digits. */
  lemma PowDigitRange(b: nat, k: nat, q: nat, e: nat)
    requires b > 1 && k >= 1 && e < b
    requires Pow(b, k - 1) <= q < Pow(b, k)
    ensures Pow(b, k) <= b * q + e < Pow(b, k + 1)
  {
    MulMono(b, Pow(b, k - 1), q);
    DigitStep(b, q, e, Pow(b, k));
  }

  lemma Distribute(a: int, x: int, y: int)
    ensures a * (x + y) == a * x + a * y
  {
  }

  lemma MulSwap(a: int, b: int, c: int)
    ensures a * (b * c) == b * (a * c)
  {
  }

  lemma MulSucc(k: int, w: int)
    ensures (k + 1) * w == k * w + w
  {
  }

  /** A multiple of `w` leaves no remainder. */
  lemma MulMod(k: nat, w: nat)
    requires w > 0
    ensures (k * w) % w == 0
  {
    DivModUnique(k * w, w, k, 0);
  }

  /** A positive multiple of `d` is at least `d`, and `d` less is again a
      multiple of `d`. */
  lemma MultipleStep(n: int, d: int)
    requires d > 0 && n > 0 && n % d == 0
    ensures n >= d && (n - d) % d == 0
  {
    DivMod(n, d);
    var q := n / d;
    MulSign(d, q);
    MulSign(d, -q);
    assert n - d == d * (q - 1);
    DivModUnique(n - d, d, q - 1, 0);
  }
}
