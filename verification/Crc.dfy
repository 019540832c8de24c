/**
  Polynomials over the two-element field as numbers, one bit to a coefficient, and the remainder modulo the CRC
  polynomial x^16 + x^12 + x^5 + 1 that gen_numname computes bit by bit.
 */
module Crc {
  import opened Arith

  const POLY := 0x1_1021

  function Pow2(bits: nat): (r: nat)
    ensures r > 0
  {
    if bits == 0 then 1 else 2 * Pow2(bits - 1)
  }

  lemma Powers()
    ensures Pow2(16) == 0x1_0000 && Pow2(17) == 0x2_0000
  {
    assert Pow2(4) == 2 * Pow2(3) == 4 * Pow2(2) == 8 * Pow2(1) == 16;
    assert Pow2(8) == 2 * Pow2(7) == 4 * Pow2(6) == 8 * Pow2(5) == 16 * Pow2(4);
    assert Pow2(12) == 2 * Pow2(11) == 4 * Pow2(10) == 8 * Pow2(9) == 16 * Pow2(8);
    assert Pow2(16) == 2 * Pow2(15) == 4 * Pow2(14) == 8 * Pow2(13) == 16 * Pow2(12);
  }

  // ---- addition ----

  /** The sum of the last bits. */
  function Bit(x: nat, y: nat): (b: nat)
    ensures b < 2
  {
    if x % 2 == y % 2 then 0 else 1
  }

  /** The sum of two polynomials: exclusive or. */
  function Xor(x: nat, y: nat): nat
    decreases x + y
  {
    if x == 0 && y == 0 then 0 else Bit(x, y) + 2 * Xor(x / 2, y / 2)
  }

  lemma XorIs(x: nat, y: nat)
    ensures Xor(x, y) == Bit(x, y) + 2 * Xor(x / 2, y / 2)
  {
    if x == 0 && y == 0 {
      assert Xor(0, 0) == 0 && Bit(0, 0) == 0;
    }
  }

  lemma Halves(b: nat, h: nat)
    requires b < 2
    ensures (b + 2 * h) % 2 == b && (b + 2 * h) / 2 == h
  {
  }

  /** A sum from its last bit and the sum of the rest. */
  lemma XorHalves(x: nat, y: nat)
    ensures Xor(x, y) == Bit(x, y) + 2 * Xor(x / 2, y / 2)
    ensures Xor(x, y) % 2 == Bit(x, y) && Xor(x, y) / 2 == Xor(x / 2, y / 2)
  {
    hide Xor, Bit;
    XorIs(x, y);
    Halves(Bit(x, y), Xor(x / 2, y / 2));
  }

  lemma {:induction false} XorZero(x: nat)
    ensures Xor(x, 0) == x && Xor(x, x) == 0
  {
    if x != 0 { XorZero(x / 2); }
  }

  lemma {:induction false} XorCommutes(x: nat, y: nat)
    ensures Xor(x, y) == Xor(y, x)
    decreases x + y
  {
    if x != 0 || y != 0 { XorCommutes(x / 2, y / 2); }
  }

  lemma {:induction false} XorAssociates(x: nat, y: nat, z: nat)
    ensures Xor(Xor(x, y), z) == Xor(x, Xor(y, z))
    decreases x + y + z
  {
    hide Xor;
    if x == 0 && y == 0 && z == 0 {
      XorZero(0);
    } else {
      XorHalves(x, y);
      XorHalves(y, z);
      XorHalves(Xor(x, y), z);
      XorHalves(x, Xor(y, z));
      XorAssociates(x / 2, y / 2, z / 2);
    }
  }

  /** Appending a bit to one of two summands. */
  lemma XorAppend(x: nat, y: nat, b: nat)
    requires b < 2
    ensures Xor(2 * x, 2 * y + b) == 2 * Xor(x, y) + b
  {
    hide Xor;
    XorHalves(2 * x, 2 * y + b);
    assert (2 * y + b) / 2 == y && 2 * x / 2 == x && Bit(2 * x, 2 * y + b) == b;
  }

  lemma {:induction false} XorBound(x: nat, y: nat, n: nat)
    requires x < Pow2(n) && y < Pow2(n)
    ensures Xor(x, y) < Pow2(n)
    decreases n
  {
    hide Xor;
    if n == 0 {
      XorZero(0);
    } else {
      XorBound(x / 2, y / 2, n - 1);
      XorHalves(x, y);
    }
  }

  /** The bits from the n-th on are those of the longer summand. */
  lemma {:induction false} XorHigh(x: nat, y: nat, n: nat)
    requires y < Pow2(n)
    ensures Xor(x, y) / Pow2(n) == x / Pow2(n)
    decreases n
  {
    hide Xor;
    if n == 0 {
      XorZero(x);
    } else {
      XorHigh(x / 2, y / 2, n - 1);
      XorHalves(x, y);
      var p := Pow2(n - 1);
      HalfThenPower(Xor(x, y), p);
      HalfThenPower(x, p);
    }
  }

  lemma HalfThenPower(x: nat, p: nat)
    requires p > 0
    ensures x / (2 * p) == x / 2 / p
  {
    DivDiv(x, 2, p);
  }

  /** Equal sums with one summand alike have the other alike. */
  lemma XorCancel(x: nat, y: nat)
    requires Xor(x, y) == 0
    ensures x == y
  {
    XorAssociates(x, y, y);
    XorZero(y);
    XorZero(x);
    XorCommutes(0, y);
  }

  // ---- multiples of the polynomial ----

  function Term(b: nat): nat { if b == 1 then POLY else 0 }

  /** The product of a polynomial and POLY. */
  function Multiple(q: nat): nat
  {
    if q == 0 then 0 else Xor(2 * Multiple(q / 2), Term(q % 2))
  }

  lemma MultipleAppend(q: nat, b: nat)
    requires b < 2
    ensures Multiple(2 * q + b) == Xor(2 * Multiple(q), Term(b))
  {
    hide Xor;
    assert (2 * q + b) / 2 == q && (2 * q + b) % 2 == b;
    if q == 0 && b == 0 { XorZero(0); }
  }

  /** A multiple other than zero has degree 16 or more. */
  lemma {:induction false} MultipleLarge(q: nat)
    requires q != 0
    ensures Multiple(q) >= 0x1_0000
  {
    hide Xor, Pow2;
    Powers();
    if q == 1 {
      XorCommutes(0, POLY);
      XorZero(POLY);
    } else {
      MultipleLarge(q / 2);
      XorHigh(2 * Multiple(q / 2), Term(q % 2), 17);
    }
  }

  /** Multiples add up to a multiple. */
  lemma {:induction false} MultipleAdds(q: nat, r: nat)
    ensures Xor(Multiple(q), Multiple(r)) == Multiple(Xor(q, r))
    decreases q + r
  {
    hide Xor, Multiple;
    if q == 0 && r == 0 {
      XorZero(0);
      XorZero(Multiple(0));
      ZeroMultiple(0);
    } else {
      var m, n, a, b := Multiple(q / 2), Multiple(r / 2), Term(q % 2), Term(r % 2);
      MultipleAdds(q / 2, r / 2);
      MultipleAppend(q / 2, q % 2);
      MultipleAppend(r / 2, r % 2);
      Exchange(2 * m, a, 2 * n, b);
      XorAppend(m, n, 0);
      XorHalves(q, r);
      MultipleAppend(Xor(q / 2, r / 2), Bit(q, r));
      TermAdds(q, r);
    }
  }

  lemma TermAdds(q: nat, r: nat)
    ensures Xor(Term(q % 2), Term(r % 2)) == Term(Bit(q, r))
  {
    hide Xor;
    XorZero(POLY);
    XorZero(0);
    XorCommutes(0, POLY);
  }

  lemma Exchange(x: nat, a: nat, y: nat, b: nat)
    ensures Xor(Xor(x, a), Xor(y, b)) == Xor(Xor(x, y), Xor(a, b))
  {
    hide Xor;
    XorAssociates(x, a, Xor(y, b));
    XorAssociates(a, y, b);
    XorCommutes(a, y);
    XorAssociates(y, a, b);
    XorAssociates(x, y, Xor(a, b));
  }

  // ---- remainders ----

  /** r is the remainder of m modulo POLY. */
  ghost predicate IsRemainder(m: nat, r: nat)
  {
    r < 0x1_0000 && exists q: nat :: m == Xor(Multiple(q), r)
  }

  lemma SmallRemainder(m: nat)
    requires m < 0x1_0000
    ensures IsRemainder(m, m)
  {
    hide Xor;
    XorCommutes(0, m);
    XorZero(m);
    assert m == Xor(Multiple(0), m);
  }

  /** There is one remainder. */
  lemma RemainderUnique(m: nat, r: nat, r': nat)
    requires IsRemainder(m, r) && IsRemainder(m, r')
    ensures r == r'
  {
    hide Xor, Multiple;
    var q: nat :| m == Xor(Multiple(q), r);
    var q': nat :| m == Xor(Multiple(q'), r');
    var d := Xor(q, q');
    Exchange(Multiple(q), r, Multiple(q'), r');
    MultipleAdds(q, q');
    XorZero(m);
    XorCancel(Multiple(d), Xor(r, r'));
    Powers();
    XorBound(r, r', 16);
    if d != 0 { MultipleLarge(d); }
    XorCancel(r, r') by { ZeroMultiple(d); }
  }

  lemma ZeroMultiple(d: nat)
    ensures d == 0 ==> Multiple(d) == 0
  {
  }

  /** Taking POLY off a polynomial of degree 16 leaves one of lower degree, and adding it again undoes that. */
  lemma TakenOff(v: nat)
    requires v < 0x1_0000
    ensures Xor(v + 0x1_0000, POLY) == Xor(v, 0x1021) < 0x1_0000
    ensures Xor(POLY, Xor(v + 0x1_0000, POLY)) == v + 0x1_0000
  {
    hide Xor, Pow2;
    Powers();
    XorBound(v, 0x1021, 16);
    var w, u := Xor(v, 0x1021), v + 0x1_0000;
    HighBit(0x1021, w, 16);
    XorCommutes(0x1021, w);
    XorAssociates(v, 0x1021, 0x1021);
    XorZero(0x1021);
    XorZero(v);
    assert Xor(POLY, w) == u;
    XorCommutes(u, POLY);
    XorAssociates(POLY, POLY, w);
    XorZero(POLY);
    XorCommutes(0, w);
    XorZero(w);
  }

  lemma {:induction false} HighBit(x: nat, y: nat, n: nat)
    requires x < Pow2(n) && y < Pow2(n)
    ensures Xor(x + Pow2(n), y) == Xor(x, y) + Pow2(n)
    decreases n
  {
    hide Xor;
    if n > 0 {
      HighBit(x / 2, y / 2, n - 1);
      XorHalves(x + Pow2(n), y);
      XorHalves(x, y);
      assert (x + Pow2(n)) % 2 == x % 2 && (x + Pow2(n)) / 2 == x / 2 + Pow2(n - 1);
    } else {
      XorZero(1);
      XorZero(0);
    }
  }

  /** One more bit: shift it in, and take the polynomial off if the degree has become 16. */
  function Shift(k: nat, b: nat): (r: nat)
    requires k < 0x1_0000 && b < 2
    ensures r < 0x1_0000
  {
    if 2 * k + b < 0x1_0000 then 2 * k + b
    else
      TakenOff(2 * k + b - 0x1_0000);
      Xor(2 * k + b, POLY)
  }

  /** The remainder of a message with one more bit. */
  lemma ShiftRemainder(m: nat, r: nat, b: nat)
    requires IsRemainder(m, r) && b < 2
    ensures IsRemainder(2 * m + b, Shift(r, b))
  {
    hide Xor, Multiple;
    var q: nat :| m == Xor(Multiple(q), r);
    XorAppend(Multiple(q), r, b);
    MultipleAppend(q, 0);
    XorZero(2 * Multiple(q));
    if 2 * r + b < 0x1_0000 {
      assert 2 * m + b == Xor(Multiple(2 * q), Shift(r, b));
    } else {
      MultipleAppend(q, 1);
      TakenOff(2 * r + b - 0x1_0000);
      XorAssociates(2 * Multiple(q), POLY, Shift(r, b));
      assert 2 * m + b == Xor(Multiple(2 * q + 1), Shift(r, b));
    }
  }
}
