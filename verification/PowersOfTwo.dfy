/** Arithmetic modulo a power of two.

The probe loop of the hash table and the multiplicative hash of the MinHash
filter rest on the same fact: an odd number is invertible modulo 2^p.
*/
module PowersOfTwo {

  function Pow2(p: nat): (n: nat)
    ensures n >= 1
  {
    if p == 0 then 1 else 2 * Pow2(p - 1)
  }

  lemma {:induction false} Pow2Splits(p: nat, q: nat)
    ensures Pow2(p + q) == Pow2(p) * Pow2(q)
  {
    if q == 0 {
    } else {
      Pow2Splits(p, q - 1);
      assert p + q - 1 == p + (q - 1);
      MulMiddle(Pow2(p), Pow2(q - 1));
    }
  }

  lemma MulMiddle(a: int, b: int)
    ensures 2 * (a * b) == a * (2 * b)
  {
  }

  /** Quotient and remainder are determined by the division equation. */
  lemma DivModUnique(x: int, n: int, q: int, r: int)
    requires 0 <= r < n
    requires x == q * n + r
    ensures x / n == q && x % n == r
  {
    var d := q - x / n;
    assert d * n == x % n - r by {
      assert x == (x / n) * n + x % n;
      assert d * n == q * n - (x / n) * n;
    }
    SmallMultiple(d, n);
  }

  lemma SmallMultiple(d: int, n: int)
    requires -n < d * n < n
    ensures d == 0
  {
  }

  lemma ModShift(x: int, k: int, n: int)
    requires n > 0
    ensures (x + k * n) % n == x % n
  {
    assert x == (x / n) * n + x % n;
    assert (x / n + k) * n == (x / n) * n + k * n;
    DivModUnique(x + k * n, n, x / n + k, x % n);
  }

  /** Equal residues differ by a multiple of the modulus. */
  lemma ModDifference(x: int, y: int, n: int) returns (k: int)
    requires n > 0 && x % n == y % n
    ensures x == y + k * n
  {
    k := x / n - y / n;
    assert x == (x / n) * n + x % n;
    assert y == (y / n) * n + y % n;
    assert k * n == (x / n) * n - (y / n) * n;
  }

  /** Every odd number has an inverse modulo 2^p: Hensel's lifting, bit by bit. */
  lemma {:induction false} OddInverse(a: int, p: nat) returns (v: int, k: int)
    requires a % 2 == 1
    ensures a * v == 1 + k * Pow2(p)
  {
    if p == 0 {
      v, k := 0, -1;
    } else {
      var v0, k0 := OddInverse(a, p - 1);
      var h := Pow2(p - 1);
      if k0 % 2 == 0 {
        v, k := v0, k0 / 2;
        assert k0 * h == (k0 / 2) * (2 * h);
      } else {
        v := v0 + h;
        k := (k0 + a) / 2;
        assert k0 + a == 2 * k;
        assert a * v == a * v0 + a * h;
        assert (k0 + a) * h == k * (2 * h) by { assert (2 * k) * h == k * (2 * h); }
        assert k0 * h + a * h == (k0 + a) * h;
      }
    }
  }

  /** An odd stride visits every residue: for each target there is a step count
      below 2^p that reaches it from any starting point. */
  lemma OddStrideReaches(start: int, stride: int, p: nat, target: int) returns (j: nat)
    requires stride % 2 == 1
    requires 0 <= target < Pow2(p)
    ensures j < Pow2(p) && (start + j * stride) % Pow2(p) == target
  {
    var n := Pow2(p);
    var v, k := OddInverse(stride, p);
    var d := target - start;
    j := (d * v) % n;
    var m := (d * v) / n;
    assert d * v == m * n + j;
    var w := d * k - m * stride;
    assert start + j * stride == target + w * n by {
      assert j * stride == (d * v) * stride - (m * n) * stride;
      assert (d * v) * stride == d * (stride * v);
      assert d * (1 + k * n) == d + (d * k) * n;
      assert (m * n) * stride == (m * stride) * n;
      assert (d * k) * n - (m * stride) * n == w * n;
    }
    ModShift(target, w, n);
    DivModUnique(target, n, 0, target);
  }

  /** A multiple of an odd number is divisible by 2^p only if its other factor is. */
  lemma OddFactorCancels(a: int, p: nat, d: int, t: int) returns (w: int)
    requires a % 2 == 1
    requires d * a == t * Pow2(p)
    ensures d == w * Pow2(p)
  {
    var n := Pow2(p);
    var v, k := OddInverse(a, p);
    w := t * v - d * k;
    assert (d * a) * v == d * (a * v);
    assert d * (1 + k * n) == d + (d * k) * n;
    assert (t * n) * v == (t * v) * n;
    assert (t * v - d * k) * n == (t * v) * n - (d * k) * n;
  }

  /** Multiplication by an odd number loses nothing modulo 2^p. */
  lemma OddMultiplicationInjective(a: int, p: nat, x: int, y: int)
    requires a % 2 == 1
    requires (x * a) % Pow2(p) == (y * a) % Pow2(p)
    ensures x % Pow2(p) == y % Pow2(p)
  {
    var t := ModDifference(x * a, y * a, Pow2(p));
    assert (x - y) * a == x * a - y * a;
    var w := OddFactorCancels(a, p, x - y, t);
    ModShift(y, w, Pow2(p));
  }
}
