/** The coefficient operations of ff.c over F_p. */
module FieldFF {
  import opened Basics
  import opened CInt64
  import opened Modular
  import opened InvFF

  predicate Rep(a: int, p: int) { 0 <= a < p }

  /** Fold a truncated remainder into [0, p). */
  function Fold(x: int, p: int): (r: int)
    requires Fits64(x) && Fits64(p) && p > 0
    ensures Rep(r, p) && Cong(r, x, p)
  {
    RemCong(x, p);
    var c := Rem64(x, p);
    CongIntro(if c < 0 then c + p else c, c, if c < 0 then 1 else 0, p);
    CongTrans(if c < 0 then c + p else c, c, x, p);
    if c < 0 then c + p else c
  }

  function AddFF(a: int, b: int, p: int): (r: int)
    requires Modulus(p) && Rep(a, p) && Rep(b, p)
    ensures Rep(r, p) && Cong(r, a + b, p)
  {
    ModulusBound(p);
    Fold(Add64(a, b), p)
  }

  function NegFF(a: int, p: int): (r: int)
    requires Modulus(p) && Rep(a, p)
    ensures Rep(r, p) && Cong(r, -a, p)
  {
    ModulusBound(p);
    var r := Fold(Sub64(p, a), p);
    CongIntro(p - a, -a, 1, p);
    CongTrans(r, p - a, -a, p);
    r
  }

  function SubFF(a: int, b: int, p: int): (r: int)
    requires Modulus(p) && Rep(a, p) && Rep(b, p)
    ensures Rep(r, p) && Cong(r, a - b, p)
  {
    ModulusBound(p);
    Fold(Sub64(a, b), p)
  }

  /** The product, except that a zero second factor is answered with the first factor. */
  function MulFF(a: int, b: int, p: int): (r: int)
    requires Modulus(p) && Rep(a, p) && Rep(b, p)
    ensures Rep(r, p)
    ensures Cong(r, a * b, p) <==> b != 0 || a == 0
  {
    ProductFits(a, b, 0, p);
    if a == 0 || b == 0 then
      MulFFZero(a, b, p);
      a
    else
      Fold(Mul64(a, b), p)
  }

  lemma MulFFZero(a: int, b: int, p: int)
    requires Rep(a, p) && Rep(b, p) && (a == 0 || b == 0)
    ensures Cong(a, a * b, p) <==> b != 0 || a == 0
  {
    assert a * b == 0;
    if a == 0 {
      CongRefl(0, p);
    } else if Cong(a, 0, p) {
      CongUnique(a, 0, p);
    }
  }

  method DivFF(a: int, b: int, p: int) returns (r: int)
    requires Modulus(p) && Rep(a, p) && Rep(b, p) && b != 0
    ensures Rep(r, p) && Cong(r * b, a, p)
    ensures a != 0 ==> r != 0
  {
    if a == 0 {
      CongRefl(0, p);
      return a;
    }
    var inv := Inv(b, p);
    ProductFits(a, inv, 0, p);
    r := Fold(Mul64(a, inv), p);
    QuotientTimesDivisor(a, b, inv, r, p);
    if r == 0 {
      CongSym(r * b, a, p);
      CongUnique(a, 0, p);
    }
  }

  lemma QuotientTimesDivisor(a: int, b: int, inv: int, r: int, p: int)
    requires Cong(inv * b, 1, p) && Cong(r, a * inv, p)
    ensures Cong(r * b, a, p)
  {
    CongScale(b, r, a * inv, p);
    CongScale(a, inv * b, 1, p);
    assert b * (a * inv) == a * (inv * b);
    assert b * r == r * b;
    CongTrans(r * b, a * (inv * b), a, p);
  }

  // ---------- the field has no zero divisors ----------

  /** Euclid's algorithm run to the end, as a proof that an inverse exists. */
  lemma {:induction false} InverseFrom(a: int, p: int, f1: int, f2: int, a1: int, a2: int) returns (inv: int)
    requires IsPrime(p) && 0 < a < p && 0 <= f1 && 0 < f2
    requires Euclid(a, p, f1, f2, a1, a2)
    ensures Cong(inv * a, 1, p)
    decreases f2
  {
    hide Euclid, Cong, IsPrime;
    var q, r := f1 / f2, f1 % f2;
    QuotientRemainder(f1, f2);
    if r == 0 {
      EuclidDone(a, p, f1, f2, a1, a2, q);
      inv := a2;
    } else {
      var s := a1 - a2 * q;
      CongRefl(s, p);
      EuclidStep(a, p, f1, f2, a1, a2, q, s);
      inv := InverseFrom(a, p, f2, r, a2, s);
    }
  }

  lemma InverseExists(a: int, p: int) returns (inv: int)
    requires IsPrime(p) && 0 < a < p
    ensures Cong(inv * a, 1, p)
  {
    EuclidInit(a, p);
    inv := InverseFrom(a, p, a, p, 1, 0);
  }

  lemma NoZeroDivisors(a: int, b: int, p: int)
    requires IsPrime(p) && 0 < a < p && Cong(a * b, 0, p)
    ensures Cong(b, 0, p)
  {
    var inv := InverseExists(a, p);
    CongCancel(a, inv, b, p);
  }
}
