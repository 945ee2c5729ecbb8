/** Congruence modulo p on the integers, stated with a witness so that proofs
    above this module never meet the remainder operator. */
module Modular {

  function Times(k: int, p: int): int { k * p }

  ghost predicate Divides(d: int, n: int) {
    exists k :: n == Times(k, d)
  }

  ghost predicate IsPrime(p: int) {
    2 <= p && forall d :: 1 < d < p ==> !Divides(d, p)
  }

  ghost predicate Cong(a: int, b: int, p: int) {
    exists k :: a == b + Times(k, p)
  }

  lemma CongIntro(a: int, b: int, k: int, p: int)
    requires a == b + k * p
    ensures Cong(a, b, p)
  {
    assert a == b + Times(k, p);
  }

  lemma CongRefl(a: int, p: int)
    ensures Cong(a, a, p)
  {
    CongIntro(a, a, 0, p);
  }

  lemma CongSym(a: int, b: int, p: int)
    requires Cong(a, b, p)
    ensures Cong(b, a, p)
  {
    var k :| a == b + Times(k, p);
    CongIntro(b, a, -k, p);
  }

  lemma CongTrans(a: int, b: int, c: int, p: int)
    requires Cong(a, b, p) && Cong(b, c, p)
    ensures Cong(a, c, p)
  {
    var k :| a == b + Times(k, p);
    var l :| b == c + Times(l, p);
    CongIntro(a, c, k + l, p);
  }

  lemma CongAdd(a: int, b: int, c: int, d: int, p: int)
    requires Cong(a, b, p) && Cong(c, d, p)
    ensures Cong(a + c, b + d, p)
  {
    var k :| a == b + Times(k, p);
    var l :| c == d + Times(l, p);
    CongIntro(a + c, b + d, k + l, p);
  }

  lemma CongScale(c: int, a: int, b: int, p: int)
    requires Cong(a, b, p)
    ensures Cong(c * a, c * b, p)
  {
    var k :| a == b + Times(k, p);
    assert c * a == c * b + (c * k) * p by {
      assert c * (k * p) == (c * k) * p;
    }
    CongIntro(c * a, c * b, c * k, p);
  }

  lemma CongSub(a: int, b: int, c: int, d: int, p: int)
    requires Cong(a, b, p) && Cong(c, d, p)
    ensures Cong(a - c, b - d, p)
  {
    CongScale(-1, c, d, p);
    CongAdd(a, b, -1 * c, -1 * d, p);
  }

  lemma CongMul(a: int, b: int, c: int, d: int, p: int)
    requires Cong(a, b, p) && Cong(c, d, p)
    ensures Cong(a * c, b * d, p)
  {
    CongScale(a, c, d, p);
    CongScale(d, a, b, p);
    assert d * a == a * d && d * b == b * d;
    CongTrans(a * c, a * d, b * d, p);
  }

  /** The remainder is congruent to the number it was taken from. */
  lemma CongMod(a: int, p: int)
    requires p > 0
    ensures Cong(a % p, a, p)
  {
    assert a == p * (a / p) + a % p;
    CongIntro(a % p, a, -(a / p), p);
  }

  lemma SmallMod(a: int, p: int)
    requires 0 <= a < p
    ensures a % p == a
  {
  }

  /** Two canonical representatives of one class are equal. */
  lemma CongUnique(a: int, b: int, p: int)
    requires 0 <= a < p && 0 <= b < p
    requires Cong(a, b, p)
    ensures a == b
  {
    var k :| a == b + Times(k, p);
    assert -p < k * p < p;
    assert k == 0;
  }

  /** A nonzero factor that has an inverse can be cancelled. */
  lemma CongCancel(a: int, ainv: int, x: int, p: int)
    requires Cong(ainv * a, 1, p)
    requires Cong(a * x, 0, p)
    ensures Cong(x, 0, p)
  {
    CongScale(ainv, a * x, 0, p);
    CongScale(x, ainv * a, 1, p);
    assert x * (ainv * a) == ainv * (a * x);
    assert x * 1 == x && ainv * 0 == 0;
    CongSym(x * (ainv * a), x, p);
    CongTrans(x, ainv * (a * x), 0, p);
  }

  lemma DividesSum(d: int, a: int, b: int, q: int)
    requires Divides(d, a) && Divides(d, b)
    ensures Divides(d, a + q * b)
  {
    var k :| a == Times(k, d);
    var l :| b == Times(l, d);
    assert a + q * b == (k + q * l) * d by {
      assert q * (l * d) == (q * l) * d;
    }
    assert a + q * b == Times(k + q * l, d);
  }

  lemma DividesBound(d: int, n: int)
    requires Divides(d, n) && n > 0 && d > 0
    ensures d <= n
  {
    var k :| n == Times(k, d);
    assert k * d > 0;
    assert k > 0;
  }
}
