/** Integer division by a variable and the bit masks the C code uses in its place. */
module Arith {
  import opened Volume

  lemma DivModUnique(x: int, n: int, q: int, r: int)
    requires 0 < n && x == q * n + r && 0 <= r < n
    ensures x / n == q && x % n == r
  {
    var d := x / n - q;
    assert x == x / n * n + x % n;
    assert d * n == r - x % n;
    assert d >= 1 ==> d * n >= n;
    assert d <= -1 ==> d * n <= -n;
  }

  lemma MulLess(a: nat, b: nat, n: nat)
    requires a < b
    ensures a * n + n <= b * n
  {
    var d := b - a - 1;
    assert d * n >= 0;
    assert b * n == (a + 1 + d) * n == a * n + n + d * n;
  }

  lemma MulCancel(a: nat, b: nat, n: nat)
    requires a * n < b * n
    ensures a < b
  {
    assert (a - b) * n < 0;
  }

  /** A quotient is below a bound exactly when the dividend is below the scaled bound. */
  lemma DivBound(x: nat, n: nat, k: nat)
    requires 0 < n
    ensures x / n < k <==> x < k * n
    ensures 0 <= x / n && x == x / n * n + x % n && 0 <= x % n < n
  {
    if x / n < k { MulLess(x / n, k, n); } else if k < x / n { MulLess(k, x / n, n); }
  }

  /** Dividing in two steps. */
  lemma DivDiv(x: nat, a: nat, b: nat)
    requires 0 < a && 0 < b
    ensures 0 < a * b && x / (a * b) == x / a / b
    ensures x % (a * b) == x / a % b * a + x % a
  {
    var q, r := x / a / b, x / a % b;
    DivBound(x, a, 0);
    DivBound(x / a, b, 0);
    assert x == (q * b + r) * a + x % a == q * (a * b) + (r * a + x % a);
    MulLess(r, b, a);
    assert a * b == b * a > 0;
    DivModUnique(x, a * b, q, r * a + x % a);
  }

  /** Bitwise and of two non-negative integers. */
  function And(x: nat, y: nat): (r: nat)
  {
    if x == 0 then 0 else x % 2 * (y % 2) + 2 * And(x / 2, y / 2)
  }

  lemma {:induction false} AndZero(x: nat)
    ensures And(x, 0) == 0
  {
    if x != 0 { AndZero(x / 2); }
  }

  lemma AndOdd(x: nat, m: nat)
    requires m >= 1
    ensures And(x, 2 * m - 1) == x % 2 + 2 * And(x / 2, m - 1)
  {
    assert (2 * m - 1) % 2 == 1 && (2 * m - 1) / 2 == m - 1;
  }

  /** Masking with a power of two minus one takes the remainder. */
  lemma {:induction false} AndMask(x: nat, n: nat)
    requires PowerOfTwo(n)
    ensures And(x, n - 1) == x % n
    decreases n
  {
    hide And;
    if n == 1 {
      AndZero(x);
    } else {
      var m := n / 2;
      AndMask(x / 2, m);
      AndOdd(x, m);
      DivDiv(x, 2, m);
    }
  }

  /** One step back, across or inside a block of n. */
  lemma StepBack(j: nat, n: nat)
    requires 0 < n && 0 < j
    ensures (j - 1) / n == if j % n == 0 then j / n - 1 else j / n
  {
    DivBound(j, n, 0);
    var q, r := j / n, j % n;
    if r == 0 {
      assert j - 1 == (q - 1) * n + (n - 1);
      DivModUnique(j - 1, n, q - 1, n - 1);
    } else {
      DivModUnique(j - 1, n, q, r - 1);
    }
  }

  /** Moving on inside one block. */
  lemma SameBlock(j: nat, k: nat, n: nat)
    requires 0 < n && j % n + k < n
    ensures (j + k) / n == j / n && (j + k) % n == j % n + k
  {
    DivBound(j, n, 0);
    DivModUnique(j + k, n, j / n, j % n + k);
  }

  lemma DoublePower(n: nat)
    requires PowerOfTwo(n)
    ensures PowerOfTwo(2 * n)
  {
  }

  /** A power of two times the sector size is one. */
  lemma PowerTimes512(n: nat)
    requires PowerOfTwo(n)
    ensures PowerOfTwo(n * 512)
  {
    hide PowerOfTwo;
    DoublePower(n);
    DoublePower(2 * n);
    DoublePower(4 * n);
    DoublePower(8 * n);
    DoublePower(16 * n);
    DoublePower(32 * n);
    DoublePower(64 * n);
    DoublePower(128 * n);
    DoublePower(256 * n);
    assert 2 * (256 * n) == n * 512;
  }

  /** In the same or a later block of n means past the start of the block. */
  lemma SameOrLater(x: nat, y: nat, n: nat)
    requires 0 < n && x / n >= y / n
    ensures y / n * n <= x
  {
    DivBound(x, n, 0);
    DivBound(y, n, 0);
    if x / n > y / n { MulLess(y / n, x / n, n); }
  }
}
