/** Modular inverse by the iterative Euclid loop shared by ff.c and rank_check_ff.c. */
module InvFF {
  import opened Basics
  import opened CInt64
  import opened Modular

  /** The moduli for which the sources' 64-bit arithmetic is exact. */
  ghost predicate Modulus(p: int) {
    IsPrime(p) && (p - 1) * (p - 1) < TWO_TO_THE_63
  }

  lemma PrimeOf(p: int)
    requires Modulus(p)
    ensures IsPrime(p)
  {
  }

  lemma SquareMono(x: int, y: int)
    requires 0 <= y && y * y < x * x && 0 <= x
    ensures y < x
  {
  }

  lemma ProductMono(x: int, y: int, q: int)
    requires 0 <= x <= q && 0 <= y <= q
    ensures 0 <= x * y <= q * q
  {
    assert x * y <= x * q;
    assert x * q <= q * q;
  }

  lemma ModulusBound(p: int)
    requires Modulus(p)
    ensures 2 <= p <= 3_037_000_500
  {
    SquareMono(3_037_000_500, p - 1);
  }

  /** Products of representatives, and such a product plus a representative, fit. */
  lemma ProductFits(a: int, b: int, c: int, p: int)
    requires Modulus(p)
    requires -p < a < p && -p < b < p && -p < c < p
    ensures Fits64(a) && Fits64(b) && Fits64(p) && Fits64(a * b) && Fits64(c + a * b)
  {
    ModulusBound(p);
    var x := if a >= 0 then a else -a;
    var y := if b >= 0 then b else -b;
    ProductMono(x, y, 3_037_000_499);
    assert a * b == x * y || a * b == -(x * y);
  }

  lemma RemCong(a: int, b: int)
    requires Fits64(a) && Fits64(b) && b > 0
    ensures Cong(Rem64(a, b), a, b)
  {
    if a >= 0 {
      CongMod(a, b);
    } else {
      CongMod(-a, b);
      CongScale(-1, (-a) % b, -a, b);
    }
  }

  /** In a field the greatest common divisor of p and a nonzero residue is 1. */
  lemma CommonDivisorIsOne(d: int, a: int, p: int)
    requires IsPrime(p) && 0 < a < p && d > 0
    requires Divides(d, a) && Divides(d, p)
    ensures d == 1
  {
    DividesBound(d, a);
  }

  /** One Euclid step keeps the relation between a remainder and its coefficient. */
  lemma BezoutStep(a: int, f1: int, f2: int, a1: int, a2: int, q: int, s: int, p: int)
    requires Cong(f1, a1 * a, p) && Cong(f2, a2 * a, p)
    requires Cong(s, a1 - a2 * q, p)
    ensures Cong(f1 - f2 * q, s * a, p)
  {
    CongScale(q, f2, a2 * a, p);
    assert q * f2 == f2 * q;
    CongSub(f1, a1 * a, q * f2, q * (a2 * a), p);
    CongScale(a, s, a1 - a2 * q, p);
    assert a * (a1 - a2 * q) == a1 * a - q * (a2 * a);
    assert a * s == s * a;
    CongSym(s * a, a1 * a - q * (a2 * a), p);
    CongTrans(f1 - f2 * q, a1 * a - q * (a2 * a), s * a, p);
  }

  /** A common divisor of a Euclid pair's successor divides the pair. */
  lemma DivisorStep(d: int, f1: int, f2: int, q: int)
    requires Divides(d, f2) && Divides(d, f1 - f2 * q)
    ensures Divides(d, f1)
  {
    DividesSum(d, f1 - f2 * q, f2, q);
    assert f1 - f2 * q + q * f2 == f1;
  }

  /** What the loop keeps: both remainders are their coefficient times a, and the pair
      has no common divisor that a and p lack. */
  ghost predicate Euclid(a: int, p: int, f1: int, f2: int, a1: int, a2: int) {
    && Cong(f1, a1 * a, p) && Cong(f2, a2 * a, p)
    && forall d :: Divides(d, f1) && Divides(d, f2) ==> Divides(d, a) && Divides(d, p)
  }

  lemma EuclidInit(a: int, p: int)
    ensures Euclid(a, p, a, p, 1, 0)
  {
    CongRefl(a, p);
    CongIntro(p, 0 * a, 1, p);
  }

  lemma EuclidStep(a: int, p: int, f1: int, f2: int, a1: int, a2: int, q: int, s: int)
    requires Euclid(a, p, f1, f2, a1, a2)
    requires Cong(s, a1 - a2 * q, p)
    ensures Euclid(a, p, f2, f1 - f2 * q, a2, s)
  {
    BezoutStep(a, f1, f2, a1, a2, q, s, p);
    forall d | Divides(d, f2) && Divides(d, f1 - f2 * q)
      ensures Divides(d, a) && Divides(d, p)
    {
      DivisorStep(d, f1, f2, q);
    }
  }

  /** When the remainder vanishes the last divisor is 1, so its coefficient is the inverse. */
  lemma EuclidDone(a: int, p: int, f1: int, f2: int, a1: int, a2: int, q: int)
    requires IsPrime(p) && 0 < a < p && 0 < f2
    requires Euclid(a, p, f1, f2, a1, a2) && f1 == f2 * q
    ensures Cong(a2 * a, 1, p)
  {
    assert f1 == Times(q, f2);
    assert f2 == Times(1, f2);
    CommonDivisorIsOne(f2, a, p);
    CongSym(f2, a2 * a, p);
  }

  lemma ProductSign(x: int, y: int)
    requires 0 < x
    ensures 0 <= y ==> 0 <= x * y
    ensures y < 0 ==> x * y <= -x
  {
    if 0 <= y {
      assert 0 <= x * y;
    } else {
      var z := -y - 1;
      assert 0 <= x * z;
      assert x * y == -(x * z) - x;
    }
  }

  lemma QuotientBounds(f1: int, f2: int, q: int, r: int)
    requires 0 <= f1 && 0 < f2 && 0 <= r < f2 && f1 == f2 * q + r
    ensures 0 <= q <= f2 * q <= f1
    ensures r != 0 ==> q < f1
  {
    ProductSign(f2, q);
    assert f2 * q == q + (f2 - 1) * q;
    if f2 > 1 {
      ProductSign(f2 - 1, q);
    }
  }

  /** The coefficient update: the truncated remainder is folded back into [0, p). */
  method NextCoefficient(a1: int, a2: int, q: int, p: int) returns (s: int)
    requires Modulus(p) && 0 <= a1 < p && 0 <= a2 < p && 0 <= q < p
    ensures 0 <= s < p && Cong(s, a1 - a2 * q, p)
  {
    ProductFits(a2, q, 0, p);
    ModulusBound(p);
    var t := Mul64(a2, q);
    var r := Rem64(t, p);
    RemCong(t, p);
    CongRefl(a1, p);
    CongSub(a1, a1, r, t, p);
    assert t >= 0;
    s := Sub64(a1, r);
    if s < 0 {
      CongIntro(s + p, s, 1, p);
      CongTrans(s + p, s, a1 - t, p);
      s := Add64(s, p);
    }
  }

  /** The loop returns a representative that inverts every nonzero residue, and 0 for 0. */
  method Inv(a: int, p: int) returns (inv: int)
    requires Modulus(p) && 0 <= a < p
    ensures 0 <= inv < p
    ensures a != 0 ==> Cong(inv * a, 1, p)
    ensures a == 0 ==> inv == 0
  {
    ModulusBound(p);
    EuclidInit(a, p);
    var f1, f2 := a, p;
    var a1, a2 := 1, 0;
    while true
      invariant 0 <= f1 <= p && 0 < f2 <= p && (f1 == p ==> f2 < p)
      invariant 0 <= a1 < p && 0 <= a2 < p
      invariant Euclid(a, p, f1, f2, a1, a2)
      invariant a == 0 ==> f1 == 0 && a2 == 0
      decreases f2
    {
      QuotientRemainder(f1, f2);
      QuotientBounds(f1, f2, f1 / f2, f1 % f2);
      var q := Div64(f1, f2);
      var r := Sub64(f1, Mul64(f2, q));
      if r == 0 {
        if a != 0 {
          EuclidDone(a, p, f1, f2, a1, a2, q);
        }
        break;
      }
      var s := NextCoefficient(a1, a2, q, p);
      EuclidStep(a, p, f1, f2, a1, a2, q, s);
      f1, f2 := f2, r;
      a1, a2 := a2, s;
    }
    inv := a2;
  }
}
