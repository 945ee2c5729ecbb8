/** Vectors and matrices of integers, read modulo p.  Sums and products are exact;
    only the final comparisons are congruences. */
module LinearAlgebra {
  import opened Modular

  type Vec = seq<int>
  type Mat = seq<Vec>

  predicate IsMat(a: Mat, r: nat, c: nat) {
    |a| == r && forall i :: 0 <= i < r ==> |a[i]| == c
  }

  /** The sum of the first n products. */
  function Dot(u: Vec, v: Vec, n: nat): int
    requires n <= |u| && n <= |v|
  {
    if n == 0 then 0 else Dot(u, v, n - 1) + u[n - 1] * v[n - 1]
  }

  function Col(a: Mat, j: nat): (v: Vec)
    requires forall k :: 0 <= k < |a| ==> j < |a[k]|
    ensures |v| == |a| && forall k :: 0 <= k < |a| ==> v[k] == a[k][j]
  {
    seq(|a|, k requires 0 <= k < |a| => a[k][j])
  }

  function MulRow(u: Vec, b: Mat, n: nat, c: nat): (w: Vec)
    requires |u| == n && IsMat(b, n, c)
    ensures |w| == c && forall j :: 0 <= j < c ==> w[j] == Dot(u, Col(b, j), n)
  {
    seq(c, j requires 0 <= j < c => Dot(u, Col(b, j), n))
  }

  function MulVec(a: Mat, x: Vec, r: nat, n: nat): (w: Vec)
    requires IsMat(a, r, n) && |x| == n
    ensures |w| == r && forall i :: 0 <= i < r ==> w[i] == Dot(a[i], x, n)
  {
    seq(r, i requires 0 <= i < r => Dot(a[i], x, n))
  }

  function MatMul(a: Mat, b: Mat, r: nat, n: nat, c: nat): (m: Mat)
    requires IsMat(a, r, n) && IsMat(b, n, c)
    ensures IsMat(m, r, c)
    ensures forall i :: 0 <= i < r ==> m[i] == MulRow(a[i], b, n, c)
  {
    seq(r, i requires 0 <= i < r => MulRow(a[i], b, n, c))
  }

  function Unit(n: nat, i: nat): (v: Vec)
    ensures |v| == n && forall j :: 0 <= j < n ==> v[j] == if i == j then 1 else 0
  {
    seq(n, j => if i == j then 1 else 0)
  }

  function Identity(n: nat): (m: Mat)
    ensures IsMat(m, n, n) && forall i :: 0 <= i < n ==> m[i] == Unit(n, i)
  {
    seq(n, i requires 0 <= i < n => Unit(n, i))
  }

  ghost predicate VCong(u: Vec, v: Vec, p: int) {
    |u| == |v| && forall k :: 0 <= k < |u| ==> Cong(u[k], v[k], p)
  }

  ghost predicate MCong(a: Mat, b: Mat, p: int) {
    |a| == |b| && forall i :: 0 <= i < |a| ==> VCong(a[i], b[i], p)
  }

  // ---------- sums ----------

  lemma {:induction false} DotLinear(z: Vec, x: Vec, y: Vec, c: int, w: Vec, n: nat)
    requires n <= |z| && n <= |x| && n <= |y| && n <= |w|
    requires forall k :: 0 <= k < n ==> z[k] == x[k] + c * y[k]
    ensures Dot(z, w, n) == Dot(x, w, n) + c * Dot(y, w, n)
  {
    if n > 0 {
      DotLinear(z, x, y, c, w, n - 1);
      var k := n - 1;
      assert z[k] * w[k] == x[k] * w[k] + c * (y[k] * w[k]) by {
        assert (x[k] + c * y[k]) * w[k] == x[k] * w[k] + (c * y[k]) * w[k];
      }
      assert c * Dot(y, w, n) == c * Dot(y, w, n - 1) + c * (y[k] * w[k]);
    }
  }

  lemma {:induction false} DotScale(z: Vec, y: Vec, c: int, w: Vec, n: nat)
    requires n <= |z| && n <= |y| && n <= |w|
    requires forall k :: 0 <= k < n ==> z[k] == c * y[k]
    ensures Dot(z, w, n) == c * Dot(y, w, n)
  {
    if n > 0 {
      DotScale(z, y, c, w, n - 1);
      var k := n - 1;
      assert z[k] * w[k] == c * (y[k] * w[k]);
      assert c * Dot(y, w, n) == c * Dot(y, w, n - 1) + c * (y[k] * w[k]);
    }
  }

  lemma {:induction false} DotSymmetric(u: Vec, v: Vec, n: nat)
    requires n <= |u| && n <= |v|
    ensures Dot(u, v, n) == Dot(v, u, n)
  {
    if n > 0 {
      DotSymmetric(u, v, n - 1);
      assert u[n - 1] * v[n - 1] == v[n - 1] * u[n - 1];
    }
  }

  /** A sum with at most one nonzero product. */
  lemma {:induction false} DotSingle(u: Vec, v: Vec, i: nat, n: nat)
    requires n <= |u| && n <= |v| && i < |u| && i < |v|
    requires forall k :: 0 <= k < n && k != i ==> u[k] == 0 || v[k] == 0
    ensures Dot(u, v, n) == if i < n then u[i] * v[i] else 0
  {
    if n > 0 {
      DotSingle(u, v, i, n - 1);
      if n - 1 != i {
        assert u[n - 1] * v[n - 1] == 0;
      }
    }
  }

  lemma {:induction false} DotCong(u: Vec, u': Vec, v: Vec, v': Vec, n: nat, p: int)
    requires n <= |u| && n <= |v| && n <= |u'| && n <= |v'|
    requires forall k :: 0 <= k < n ==> Cong(u[k], u'[k], p)
    requires forall k :: 0 <= k < n ==> Cong(v[k], v'[k], p)
    ensures Cong(Dot(u, v, n), Dot(u', v', n), p)
  {
    if n == 0 {
      CongRefl(0, p);
    } else {
      DotCong(u, u', v, v', n - 1, p);
      var k := n - 1;
      CongMul(u[k], u'[k], v[k], v'[k], p);
      CongAdd(Dot(u, v, k), Dot(u', v', k), u[k] * v[k], u'[k] * v'[k], p);
    }
  }

  lemma {:induction false} DotZero(u: Vec, v: Vec, n: nat, p: int)
    requires n <= |u| && n <= |v|
    requires forall k :: 0 <= k < n ==> Cong(u[k], 0, p)
    ensures Cong(Dot(u, v, n), 0, p)
  {
    if n == 0 {
      CongRefl(0, p);
    } else {
      DotZero(u, v, n - 1, p);
      CongRefl(v[n - 1], p);
      CongMul(u[n - 1], 0, v[n - 1], v[n - 1], p);
      CongAdd(Dot(u, v, n - 1), 0, u[n - 1] * v[n - 1], 0 * v[n - 1], p);
    }
  }

  /** The first k steps of u·B, as a vector. */
  function PartialRow(u: Vec, b: Mat, k: nat, n: nat, c: nat): (w: Vec)
    requires |u| == n && IsMat(b, n, c) && k <= n
    ensures |w| == c && forall j :: 0 <= j < c ==> w[j] == Dot(u, Col(b, j), k)
  {
    seq(c, j requires 0 <= j < c => Dot(u, Col(b, j), k))
  }

  lemma {:induction false} DotExchangePrefix(u: Vec, b: Mat, w: Vec, k: nat, n: nat, c: nat)
    requires |u| == n && IsMat(b, n, c) && |w| == c && k <= n
    ensures Dot(PartialRow(u, b, k, n, c), w, c) == Dot(u, MulVec(b, w, n, c), k)
  {
    var now := PartialRow(u, b, k, n, c);
    if k == 0 {
      DotScale(now, now, 0, w, c);
    } else {
      DotExchangePrefix(u, b, w, k - 1, n, c);
      DotLinear(now, PartialRow(u, b, k - 1, n, c), b[k - 1], u[k - 1], w, c);
    }
  }

  /** (u·B)·w == u·(B·w): the order of a double sum can be exchanged. */
  lemma DotExchange(u: Vec, b: Mat, w: Vec, n: nat, c: nat)
    requires |u| == n && IsMat(b, n, c) && |w| == c
    ensures Dot(MulRow(u, b, n, c), w, c) == Dot(u, MulVec(b, w, n, c), n)
  {
    DotExchangePrefix(u, b, w, n, n, c);
    assert MulRow(u, b, n, c) == PartialRow(u, b, n, n, c);
  }

  // ---------- products ----------

  lemma MulRowAssoc(u: Vec, b: Mat, d: Mat, n: nat, m: nat, c: nat)
    requires |u| == n && IsMat(b, n, m) && IsMat(d, m, c)
    ensures MulRow(MulRow(u, b, n, m), d, m, c) == MulRow(u, MatMul(b, d, n, m, c), n, c)
  {
    var bd := MatMul(b, d, n, m, c);
    forall j | 0 <= j < c
      ensures Dot(MulRow(u, b, n, m), Col(d, j), m) == Dot(u, Col(bd, j), n)
    {
      DotExchange(u, b, Col(d, j), n, m);
      assert MulVec(b, Col(d, j), n, m) == Col(bd, j);
    }
  }

  lemma MatMulAssoc(a: Mat, b: Mat, d: Mat, r: nat, n: nat, m: nat, c: nat)
    requires IsMat(a, r, n) && IsMat(b, n, m) && IsMat(d, m, c)
    ensures MatMul(MatMul(a, b, r, n, m), d, r, m, c) == MatMul(a, MatMul(b, d, n, m, c), r, n, c)
  {
    forall i | 0 <= i < r
      ensures MulRow(MulRow(a[i], b, n, m), d, m, c) == MulRow(a[i], MatMul(b, d, n, m, c), n, c)
    {
      MulRowAssoc(a[i], b, d, n, m, c);
    }
  }

  /** (A·B)·x == A·(B·x). */
  lemma MulVecAssoc(a: Mat, b: Mat, x: Vec, r: nat, n: nat, c: nat)
    requires IsMat(a, r, n) && IsMat(b, n, c) && |x| == c
    ensures MulVec(MatMul(a, b, r, n, c), x, r, c) == MulVec(a, MulVec(b, x, n, c), r, n)
  {
    forall i | 0 <= i < r
      ensures Dot(MulRow(a[i], b, n, c), x, c) == Dot(a[i], MulVec(b, x, n, c), n)
    {
      DotExchange(a[i], b, x, n, c);
    }
  }

  lemma UnitRowMul(b: Mat, i: nat, n: nat, c: nat)
    requires IsMat(b, n, c) && i < n
    ensures MulRow(Unit(n, i), b, n, c) == b[i]
  {
    forall j | 0 <= j < c
      ensures Dot(Unit(n, i), Col(b, j), n) == b[i][j]
    {
      DotSingle(Unit(n, i), Col(b, j), i, n);
    }
  }

  lemma IdentityMul(b: Mat, n: nat, c: nat)
    requires IsMat(b, n, c)
    ensures MatMul(Identity(n), b, n, n, c) == b
  {
    forall i | 0 <= i < n
      ensures MulRow(Identity(n)[i], b, n, c) == b[i]
    {
      UnitRowMul(b, i, n, c);
    }
  }

  lemma IdentityMulVec(x: Vec, n: nat)
    requires |x| == n
    ensures MulVec(Identity(n), x, n, n) == x
  {
    forall i | 0 <= i < n
      ensures Dot(Identity(n)[i], x, n) == x[i]
    {
      DotSingle(Unit(n, i), x, i, n);
    }
  }

  // ---------- congruences ----------

  lemma VCongRefl(u: Vec, p: int)
    ensures VCong(u, u, p)
  {
    forall k | 0 <= k < |u| ensures Cong(u[k], u[k], p) { CongRefl(u[k], p); }
  }

  lemma VCongSym(u: Vec, v: Vec, p: int)
    requires VCong(u, v, p)
    ensures VCong(v, u, p)
  {
    forall k | 0 <= k < |u| ensures Cong(v[k], u[k], p) { CongSym(u[k], v[k], p); }
  }

  lemma VCongTrans(u: Vec, v: Vec, w: Vec, p: int)
    requires VCong(u, v, p) && VCong(v, w, p)
    ensures VCong(u, w, p)
  {
    forall k | 0 <= k < |u| ensures Cong(u[k], w[k], p) { CongTrans(u[k], v[k], w[k], p); }
  }

  lemma MCongRefl(a: Mat, p: int)
    ensures MCong(a, a, p)
  {
    forall i | 0 <= i < |a| ensures VCong(a[i], a[i], p) { VCongRefl(a[i], p); }
  }

  lemma MCongSym(a: Mat, b: Mat, p: int)
    requires MCong(a, b, p)
    ensures MCong(b, a, p)
  {
    forall i | 0 <= i < |a| ensures VCong(b[i], a[i], p) { VCongSym(a[i], b[i], p); }
  }

  lemma MCongTrans(a: Mat, b: Mat, d: Mat, p: int)
    requires MCong(a, b, p) && MCong(b, d, p)
    ensures MCong(a, d, p)
  {
    forall i | 0 <= i < |a| ensures VCong(a[i], d[i], p) { VCongTrans(a[i], b[i], d[i], p); }
  }

  lemma MulRowCong(u: Vec, u': Vec, b: Mat, b': Mat, n: nat, c: nat, p: int)
    requires |u| == |u'| == n && IsMat(b, n, c) && IsMat(b', n, c)
    requires VCong(u, u', p) && MCong(b, b', p)
    ensures VCong(MulRow(u, b, n, c), MulRow(u', b', n, c), p)
  {
    forall j | 0 <= j < c
      ensures Cong(Dot(u, Col(b, j), n), Dot(u', Col(b', j), n), p)
    {
      assert forall k :: 0 <= k < n ==> VCong(b[k], b'[k], p);
      DotCong(u, u', Col(b, j), Col(b', j), n, p);
    }
  }

  lemma MatMulCong(a: Mat, a': Mat, b: Mat, b': Mat, r: nat, n: nat, c: nat, p: int)
    requires IsMat(a, r, n) && IsMat(a', r, n) && IsMat(b, n, c) && IsMat(b', n, c)
    requires MCong(a, a', p) && MCong(b, b', p)
    ensures MCong(MatMul(a, b, r, n, c), MatMul(a', b', r, n, c), p)
  {
    forall i | 0 <= i < r
      ensures VCong(MulRow(a[i], b, n, c), MulRow(a'[i], b', n, c), p)
    {
      MulRowCong(a[i], a'[i], b, b', n, c, p);
    }
  }

  lemma MulVecCong(a: Mat, a': Mat, x: Vec, x': Vec, r: nat, n: nat, p: int)
    requires IsMat(a, r, n) && IsMat(a', r, n) && |x| == |x'| == n
    requires MCong(a, a', p) && VCong(x, x', p)
    ensures VCong(MulVec(a, x, r, n), MulVec(a', x', r, n), p)
  {
    forall i | 0 <= i < r
      ensures Cong(Dot(a[i], x, n), Dot(a'[i], x', n), p)
    {
      assert VCong(a[i], a'[i], p);
      DotCong(a[i], a'[i], x, x', n, p);
    }
  }

  // ---------- invertible matrices ----------

  ghost predicate Inverses(a: Mat, b: Mat, n: nat, p: int)
    requires IsMat(a, n, n) && IsMat(b, n, n)
  {
    && MCong(MatMul(a, b, n, n, n), Identity(n), p)
    && MCong(MatMul(b, a, n, n, n), Identity(n), p)
  }

  ghost predicate Invertible(a: Mat, n: nat, p: int)
    requires IsMat(a, n, n)
  {
    exists b :: IsMat(b, n, n) && Inverses(a, b, n, p)
  }

  /** An invertible matrix loses nothing: A·v determines v. */
  lemma InvertibleCancels(a: Mat, v: Vec, w: Vec, n: nat, p: int)
    requires IsMat(a, n, n) && Invertible(a, n, p) && |v| == |w| == n
    requires VCong(MulVec(a, v, n, n), MulVec(a, w, n, n), p)
    ensures VCong(v, w, p)
  {
    var b :| IsMat(b, n, n) && Inverses(a, b, n, p);
    LeftInverse(a, b, v, n, p);
    LeftInverse(a, b, w, n, p);
    MCongRefl(b, p);
    var av, aw := MulVec(a, v, n, n), MulVec(a, w, n, n);
    MulVecCong(b, b, av, aw, n, n, p);
    VCongSym(MulVec(b, av, n, n), v, p);
    VCongTrans(v, MulVec(b, av, n, n), MulVec(b, aw, n, n), p);
    VCongTrans(v, MulVec(b, aw, n, n), w, p);
  }

  lemma LeftInverse(a: Mat, b: Mat, v: Vec, n: nat, p: int)
    requires IsMat(a, n, n) && IsMat(b, n, n) && Inverses(a, b, n, p) && |v| == n
    ensures VCong(MulVec(b, MulVec(a, v, n, n), n, n), v, p)
  {
    MulVecAssoc(b, a, v, n, n, n);
    VCongRefl(v, p);
    MulVecCong(MatMul(b, a, n, n, n), Identity(n), v, v, n, n, p);
    IdentityMulVec(v, n);
  }
}
