/** The product and difference of matrices over F_p, and the self-check of the elimination. */
module SelfCheck {
  import opened CInt64
  import opened Modular
  import opened InvFF
  import opened LinearAlgebra
  import opened RowOps
  import opened GaussElim

  /** One more product, reduced before and after it is added. */
  method AddProduct(t0: int, x: int, y: int, p: int, ghost u: Vec, ghost w: Vec, ghost j: nat) returns (t: int)
    requires Modulus(p) && 0 <= t0 < p && 0 <= x < p && 0 <= y < p
    requires j < |u| && j < |w| && u[j] == x && w[j] == y
    requires Cong(t0, Dot(u, w, j), p)
    ensures 0 <= t < p && Cong(t, Dot(u, w, j + 1), p)
  {
    hide Cong, Modulus;
    ModulusBound(p);
    ProductFits(x, y, t0, p);
    assert x * y >= 0;
    var q := Rem64(Mul64(x, y), p);
    RemCong(x * y, p);
    CongAdd(t0, Dot(u, w, j), q, x * y, p);
    var s := Add64(t0, q);
    RemCong(s, p);
    t := Rem64(s, p);
    CongTrans(t, s, Dot(u, w, j) + x * y, p);
  }

  /** Row i of m1 times column k of m2. */
  method Entry(m1: array2<int>, m2: array2<int>, i: nat, k: nat, p: int) returns (t: int)
    requires Modulus(p) && m1.Length1 == m2.Length0 && i < m1.Length0 && k < m2.Length1
    requires Canonical(Rows(m1), p) && Canonical(Rows(m2), p)
    ensures 0 <= t < p && Cong(t, Dot(Rows(m1)[i], Col(Rows(m2), k), m1.Length1), p)
  {
    hide Modulus, Cong, Rows;
    ghost var u, b := Rows(m1)[i], Rows(m2);
    ModulusBound(p);
    t := 0;
    CongRefl(0, p);
    for j := 0 to m1.Length1
      invariant 0 <= t < p && Cong(t, Dot(u, Col(b, k), j), p)
    {
      assert m1[i, j] == u[j] && m2[j, k] == b[j][k] == Col(b, k)[j];
      t := AddProduct(t, m1[i, j], m2[j, k], p, u, Col(b, k), j);
    }
  }

  method MatrixMult(m1: array2<int>, m2: array2<int>, p: int) returns (m: array2<int>)
    requires Modulus(p) && m1.Length1 == m2.Length0
    requires Canonical(Rows(m1), p) && Canonical(Rows(m2), p)
    ensures fresh(m) && m.Length0 == m1.Length0 && m.Length1 == m2.Length1
    ensures Canonical(Rows(m), p)
    ensures MCong(Rows(m), MatMul(Rows(m1), Rows(m2), m1.Length0, m1.Length1, m2.Length1), p)
  {
    hide Modulus, Cong, Rows, Canonical;
    m := new int[m1.Length0, m2.Length1];
    ghost var a, b := Rows(m1), Rows(m2);
    for i := 0 to m1.Length0
      invariant Rows(m1) == a && Rows(m2) == b
      invariant forall l, k :: 0 <= l < i && 0 <= k < m2.Length1 ==>
        0 <= m[l, k] < p && Cong(m[l, k], Dot(a[l], Col(b, k), m1.Length1), p)
    {
      for k := 0 to m2.Length1
        invariant Rows(m1) == a && Rows(m2) == b
        invariant forall l, q :: (0 <= l < i && 0 <= q < m2.Length1) || (l == i && 0 <= q < k) ==>
          0 <= m[l, q] < p && Cong(m[l, q], Dot(a[l], Col(b, q), m1.Length1), p)
      {
        var t := Entry(m1, m2, i, k, p);
        m[i, k] := t;
      }
    }
    ProductFrom(Rows(m), a, b, m1.Length0, m1.Length1, m2.Length1, p);
  }

  lemma ProductFrom(m: Mat, a: Mat, b: Mat, r: nat, n: nat, c: nat, p: int)
    requires IsMat(m, r, c) && IsMat(a, r, n) && IsMat(b, n, c)
    requires forall i, k :: 0 <= i < r && 0 <= k < c ==> 0 <= m[i][k] < p && Cong(m[i][k], Dot(a[i], Col(b, k), n), p)
    ensures Canonical(m, p) && MCong(m, MatMul(a, b, r, n, c), p)
  {
    forall i | 0 <= i < r
      ensures VCong(m[i], MatMul(a, b, r, n, c)[i], p)
    {
    }
  }

  /** Congruent matrices with entries in [0, p) are equal. */
  lemma CanonicalEqual(a: Mat, b: Mat, r: nat, c: nat, p: int)
    requires IsMat(a, r, c) && IsMat(b, r, c) && Canonical(a, p) && Canonical(b, p) && MCong(a, b, p)
    ensures a == b
  {
    forall i | 0 <= i < r
      ensures a[i] == b[i]
    {
      assert VCong(a[i], b[i], p);
      forall j | 0 <= j < c
        ensures a[i][j] == b[i][j]
      {
        CongUnique(a[i][j], b[i][j], p);
      }
    }
  }

  /** The reduced product, as the program computes it. */
  ghost predicate IsProduct(m: Mat, a: Mat, b: Mat, r: nat, n: nat, c: nat, p: int) {
    IsMat(a, r, n) && IsMat(b, n, c) && IsMat(m, r, c) && Canonical(m, p) && MCong(m, MatMul(a, b, r, n, c), p)
  }

  /** The reduced product is associative: both ways to multiply three matrices give equal entries. */
  lemma ProductAssoc(a: Mat, b: Mat, d: Mat, ab: Mat, bd: Mat, left: Mat, right: Mat,
                     r: nat, n: nat, m: nat, c: nat, p: int)
    requires IsProduct(ab, a, b, r, n, m, p) && IsProduct(left, ab, d, r, m, c, p)
    requires IsProduct(bd, b, d, n, m, c, p) && IsProduct(right, a, bd, r, n, c, p)
    ensures left == right
  {
    var exact := MatMul(MatMul(a, b, r, n, m), d, r, m, c);
    MatMulAssoc(a, b, d, r, n, m, c);
    MCongRefl(d, p);
    MCongRefl(a, p);
    MatMulCong(ab, MatMul(a, b, r, n, m), d, d, r, m, c, p);
    MatMulCong(a, a, bd, MatMul(b, d, n, m, c), r, n, c, p);
    MCongTrans(left, MatMul(ab, d, r, m, c), exact, p);
    MCongTrans(right, MatMul(a, bd, r, n, c), exact, p);
    MCongSym(right, exact, p);
    MCongTrans(left, exact, right, p);
    CanonicalEqual(left, right, r, c, p);
    hide MatMul, MCong, Canonical;
  }

  /** The differences, with the sign of C's remainder. */
  method MatrixSub(m1: array2<int>, m2: array2<int>, p: int) returns (m: array2<int>)
    requires Modulus(p) && m1.Length0 == m2.Length0 && m1.Length1 == m2.Length1
    requires Canonical(Rows(m1), p) && Canonical(Rows(m2), p)
    ensures fresh(m) && m.Length0 == m1.Length0 && m.Length1 == m1.Length1
    ensures forall i, j :: 0 <= i < m.Length0 && 0 <= j < m.Length1 ==> m[i, j] == m1[i, j] - m2[i, j]
  {
    hide Modulus;
    m := new int[m1.Length0, m1.Length1];
    ModulusBound(p);
    EntriesInRange(m1, p);
    EntriesInRange(m2, p);
    hide *;
    for i := 0 to m1.Length0
      invariant forall l, q :: 0 <= l < i && 0 <= q < m1.Length1 ==> m[l, q] == m1[l, q] - m2[l, q]
    {
      for j := 0 to m1.Length1
        invariant forall l, q :: (0 <= l < i && 0 <= q < m1.Length1) || (l == i && 0 <= q < j) ==>
          m[l, q] == m1[l, q] - m2[l, q]
      {
        m[i, j] := Difference(m1[i, j], m2[i, j], p);
      }
    }
  }

  lemma EntriesInRange(m: array2<int>, p: int)
    requires Canonical(Rows(m), p)
    ensures forall i, j :: 0 <= i < m.Length0 && 0 <= j < m.Length1 ==> 0 <= m[i, j] < p
  {
    forall i, j | 0 <= i < m.Length0 && 0 <= j < m.Length1
      ensures 0 <= m[i, j] < p
    {
      assert Rows(m)[i][j] == m[i, j];
    }
    hide Rows;
  }

  /** The remainder changes no difference of residues. */
  function Difference(x: int, y: int, p: int): (d: int)
    requires 0 <= x < p && 0 <= y < p && p <= 3_037_000_500
    ensures d == x - y
  {
    SmallRemainder(x - y, p);
    Rem64(Sub64(x, y), p)
  }

  lemma SmallRemainder(d: int, p: int)
    requires -p < d < p <= 3_037_000_500
    ensures Fits64(d) && Fits64(p) && Rem64(d, p) == d
  {
    SmallMod(if d >= 0 then d else -d, p);
  }

  /** The product of the record and the original matrix, compared with the result entry by entry. */
  method DiffCheck(m: array2<int>, t: array2<int>, orig: array2<int>, p: int) returns (ok: bool)
    requires Modulus(p) && t.Length1 == orig.Length0
    requires m.Length0 == t.Length0 && m.Length1 == orig.Length1
    requires Canonical(Rows(m), p) && Canonical(Rows(t), p) && Canonical(Rows(orig), p)
    ensures ok <==> MCong(MatMul(Rows(t), Rows(orig), t.Length0, t.Length1, orig.Length1), Rows(m), p)
  {
    hide *;
    ModulusBound(p);
    ghost var a, product := Rows(m), MatMul(Rows(t), Rows(orig), t.Length0, t.Length1, orig.Length1);
    var tm := MatrixMult(t, orig, p);
    var diff := MatrixSub(m, tm, p);
    SameIff(a, Rows(tm), product, m.Length0, m.Length1, p);
    EntriesInRange(m, p);
    EntriesInRange(tm, p);
    ok := AllZero(diff, p);
    SameEntries(m, tm);
  }

  lemma SameEntries(m: array2<int>, k: array2<int>)
    requires m.Length0 == k.Length0 && m.Length1 == k.Length1
    ensures Rows(m) == Rows(k)
      <==> forall i, j :: 0 <= i < m.Length0 && 0 <= j < m.Length1 ==> m[i, j] - k[i, j] == 0
  {
    if forall i, j :: 0 <= i < m.Length0 && 0 <= j < m.Length1 ==> m[i, j] - k[i, j] == 0 {
      SameRows(k, Rows(m));
    }
    if Rows(m) == Rows(k) {
      forall i, j | 0 <= i < m.Length0 && 0 <= j < m.Length1
        ensures m[i, j] - k[i, j] == 0
      {
        assert Rows(m)[i][j] == m[i, j] && Rows(k)[i][j] == k[i, j];
      }
    }
    hide Rows;
  }

  /** The test of the differences. */
  method AllZero(diff: array2<int>, p: int) returns (zero: bool)
    requires p <= 3_037_000_500
    requires forall i, j :: 0 <= i < diff.Length0 && 0 <= j < diff.Length1 ==> -p < diff[i, j] < p
    ensures zero <==> forall i, j :: 0 <= i < diff.Length0 && 0 <= j < diff.Length1 ==> diff[i, j] == 0
  {
    hide *;
    for i := 0 to diff.Length0
      invariant forall l, q :: 0 <= l < i && 0 <= q < diff.Length1 ==> diff[l, q] == 0
    {
      for j := 0 to diff.Length1
        invariant forall q :: 0 <= q < j ==> diff[i, q] == 0
        invariant forall l, q :: 0 <= l < i && 0 <= q < diff.Length1 ==> diff[l, q] == 0
      {
        SmallRemainder(diff[i, j], p);
        if Rem64(diff[i, j], p) != 0 {
          return false;
        }
      }
    }
    return true;
  }

  lemma SameIff(m: Mat, tm: Mat, product: Mat, r: nat, c: nat, p: int)
    requires IsMat(m, r, c) && IsMat(tm, r, c) && Canonical(m, p) && Canonical(tm, p) && MCong(tm, product, p)
    ensures MCong(product, m, p) <==> m == tm
  {
    MCongSym(tm, product, p);
    if MCong(product, m, p) {
      MCongTrans(tm, product, m, p);
      CanonicalEqual(tm, m, r, c, p);
    }
    hide MCong, Canonical;
  }

  method CopyMatrix(m: array2<int>) returns (k: array2<int>)
    ensures fresh(k) && k.Length0 == m.Length0 && k.Length1 == m.Length1 && Rows(k) == Rows(m)
  {
    k := new int[m.Length0, m.Length1];
    forall i, j | 0 <= i < m.Length0 && 0 <= j < m.Length1 {
      k[i, j] := m[i, j];
    }
    SameRows(k, Rows(m));
    hide Rows;
  }

  /** The elimination with its self-check: the check never reports an error. */
  method CheckedElimination(m: array2<int>, p: int) returns (t: array2<int>, indep: array<int>, len: nat, ok: bool)
    requires Modulus(p) && Canonical(Rows(m), p)
    modifies m
    ensures ok
    ensures fresh(t) && t.Length0 == t.Length1 == m.Length0
    ensures fresh(indep) && len <= indep.Length == m.Length1
    ensures Tracks(Rows(t), Rows(m), old(Rows(m)), m.Length0, m.Length1, p)
    ensures Reduced(Rows(m), indep[..len], m.Length1, m.Length0, m.Length1)
  {
    hide *;
    ghost var orig := Rows(m);
    var morig := CopyMatrix(m);
    t, indep, len := GaussElimFF(m, p);
    TrackParts(Rows(t), Rows(m), orig, m.Length0, m.Length1, p);
    ok := DiffCheck(m, t, morig, p);
  }

  lemma TrackParts(t: Mat, m: Mat, orig: Mat, r: nat, c: nat, p: int)
    requires Tracks(t, m, orig, r, c, p)
    ensures IsMat(t, r, r) && IsMat(orig, r, c) && Canonical(t, p) && Canonical(m, p)
    ensures MCong(MatMul(t, orig, r, r, c), m, p)
  {
    hide Canonical, MCong, MatMul;
  }
}
