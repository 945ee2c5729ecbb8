/** What the elimination result means, and the rank check built on it. */
module RankCheck {
  import opened CInt64
  import opened Modular
  import opened InvFF
  import opened LinearAlgebra
  import opened RowOps
  import opened GaussElim

  /** The linear system orig·x ≡ v has a solution. */
  ghost predicate Solvable(orig: Mat, v: Vec, r: nat, c: nat, p: int)
    requires IsMat(orig, r, c) && |v| == r
  {
    exists x: Vec :: |x| == c && VCong(MulVec(orig, x, r, c), v, p)
  }

  ghost predicate Increasing(piv: seq<int>, c: nat) {
    && (forall k, l :: 0 <= k < l < |piv| ==> piv[k] < piv[l])
    && (forall k :: 0 <= k < |piv| ==> 0 <= piv[k] < c)
  }

  /** The vector with y[k] at position piv[k] and zero elsewhere. */
  ghost function Scatter(piv: seq<int>, y: Vec, c: nat): (x: Vec)
    requires Increasing(piv, c) && |piv| <= |y|
    ensures |x| == c
    ensures forall k :: 0 <= k < |piv| ==> x[piv[k]] == y[k]
    ensures forall j :: 0 <= j < c && j !in piv ==> x[j] == 0
  {
    seq(c, j requires 0 <= j < c =>
      if j in piv then var k :| 0 <= k < |piv| && piv[k] == j; y[k] else 0)
  }

  /** A vector that lives on the pivot columns is read off the echelon form. */
  lemma EchelonMulVec(m: Mat, piv: seq<int>, x: Vec, i: nat, r: nat, c: nat)
    requires Reduced(m, piv, c, r, c) && |x| == c && i < r
    requires forall j :: 0 <= j < c && j !in piv ==> x[j] == 0
    ensures Dot(m[i], x, c) == if i < |piv| then x[piv[i]] else 0
  {
    if i < |piv| {
      forall j | 0 <= j < c && j != piv[i]
        ensures m[i][j] == 0 || x[j] == 0
      {
        if j in piv {
          var k :| 0 <= k < |piv| && piv[k] == j;
          assert m[i][piv[k]] == 0;
        }
      }
      DotSingle(m[i], x, piv[i], c);
    } else if c > 0 {
      DotSingle(m[i], x, 0, c);
    }
  }

  /** t·(orig·x) ≡ m·x. */
  lemma TracksMulVec(t: Mat, m: Mat, orig: Mat, x: Vec, r: nat, c: nat, p: int)
    requires Tracks(t, m, orig, r, c, p) && |x| == c
    ensures IsMat(t, r, r) && IsMat(m, r, c) && IsMat(orig, r, c)
    ensures VCong(MulVec(t, MulVec(orig, x, r, c), r, r), MulVec(m, x, r, c), p)
  {
    MulVecAssoc(t, orig, x, r, r, c);
    VCongRefl(x, p);
    MulVecCong(MatMul(t, orig, r, r, c), m, x, x, r, c, p);
  }

  /** If m·x ≡ t·v then x solves orig·x ≡ v. */
  lemma SolutionLifts(t: Mat, m: Mat, orig: Mat, x: Vec, v: Vec, r: nat, c: nat, p: int)
    requires Tracks(t, m, orig, r, c, p) && |x| == c && |v| == r
    requires IsMat(m, r, c) && IsMat(t, r, r) && IsMat(orig, r, c)
    requires VCong(MulVec(m, x, r, c), MulVec(t, v, r, r), p)
    ensures VCong(MulVec(orig, x, r, c), v, p)
  {
    TracksMulVec(t, m, orig, x, r, c, p);
    var w := MulVec(orig, x, r, c);
    VCongTrans(MulVec(t, w, r, r), MulVec(m, x, r, c), MulVec(t, v, r, r), p);
    InvertibleCancels(t, w, v, r, p);
  }

  /** The pivot columns of the original matrix span all its columns: column j is the
      combination of the pivot columns whose coefficients are column j of the echelon form. */
  lemma PivotColumnsSpan(t: Mat, m: Mat, orig: Mat, piv: seq<int>, j: nat, r: nat, c: nat, p: int)
    requires Tracks(t, m, orig, r, c, p) && Reduced(m, piv, c, r, c) && j < c
    requires IsMat(orig, r, c) && Increasing(piv, c)
    ensures VCong(MulVec(orig, Scatter(piv, Col(m, j), c), r, c), Col(orig, j), p)
  {
    var x := Scatter(piv, Col(m, j), c);
    var e := Unit(c, j);
    forall i | 0 <= i < r
      ensures Dot(m[i], x, c) == Dot(m[i], e, c) && Dot(orig[i], e, c) == orig[i][j]
    {
      EchelonMulVec(m, piv, x, i, r, c);
      DotSingle(m[i], e, j, c);
      DotSingle(orig[i], e, j, c);
    }
    assert MulVec(m, x, r, c) == MulVec(m, e, r, c);
    assert MulVec(orig, e, r, c) == Col(orig, j);
    TracksMulVec(t, m, orig, e, r, c, p);
    VCongSym(MulVec(t, Col(orig, j), r, r), MulVec(m, e, r, c), p);
    SolutionLifts(t, m, orig, x, Col(orig, j), r, c, p);
  }

  /** The pivot columns of the original matrix are linearly independent. */
  lemma PivotColumnsIndependent(t: Mat, m: Mat, orig: Mat, piv: seq<int>, x: Vec, r: nat, c: nat, p: int)
    requires Tracks(t, m, orig, r, c, p) && Reduced(m, piv, c, r, c) && |x| == c
    requires IsMat(orig, r, c)
    requires forall j :: 0 <= j < c && j !in piv ==> x[j] == 0
    requires forall i :: 0 <= i < r ==> Cong(Dot(orig[i], x, c), 0, p)
    ensures forall j :: 0 <= j < c ==> Cong(x[j], 0, p)
  {
    TracksMulVec(t, m, orig, x, r, c, p);
    var w := MulVec(orig, x, r, c);
    forall j | 0 <= j < c
      ensures Cong(x[j], 0, p)
    {
      if j in piv {
        var k :| 0 <= k < |piv| && piv[k] == j;
        EchelonMulVec(m, piv, x, k, r, c);
        DotZero(w, t[k], r, p);
        DotSymmetric(w, t[k], r);
        CongSym(Dot(t[k], w, r), Dot(m[k], x, c), p);
        CongTrans(x[j], Dot(t[k], w, r), 0, p);
      } else {
        CongRefl(0, p);
      }
    }
  }

  /** The system is solvable exactly when t·v vanishes past the rank. */
  ghost predicate PassesRankTest(t: Mat, v: Vec, rank: nat, r: nat, p: int)
    requires IsMat(t, r, r) && |v| == r
  {
    forall i :: rank <= i < r ==> Cong(Dot(t[i], v, r), 0, p)
  }

  lemma RankTest(t: Mat, m: Mat, orig: Mat, piv: seq<int>, v: Vec, r: nat, c: nat, p: int)
    requires Tracks(t, m, orig, r, c, p) && Reduced(m, piv, c, r, c) && |v| == r
    requires IsMat(t, r, r) && IsMat(orig, r, c)
    ensures PassesRankTest(t, v, |piv|, r, p) <==> Solvable(orig, v, r, c, p)
  {
    if PassesRankTest(t, v, |piv|, r, p) {
      RankTestSuffices(t, m, orig, piv, v, r, c, p);
    }
    if Solvable(orig, v, r, c, p) {
      RankTestNecessary(t, m, orig, piv, v, r, c, p);
    }
  }

  lemma RankTestSuffices(t: Mat, m: Mat, orig: Mat, piv: seq<int>, v: Vec, r: nat, c: nat, p: int)
    requires Tracks(t, m, orig, r, c, p) && Reduced(m, piv, c, r, c) && |v| == r
    requires IsMat(t, r, r) && IsMat(orig, r, c)
    requires PassesRankTest(t, v, |piv|, r, p)
    ensures Solvable(orig, v, r, c, p)
  {
    hide Tracks;
    var y := MulVec(t, v, r, r);
    var x := Scatter(piv, y, c);
    forall i | 0 <= i < r
      ensures Cong(Dot(m[i], x, c), y[i], p)
    {
      EchelonMulVec(m, piv, x, i, r, c);
      if i < |piv| {
        CongRefl(y[i], p);
      } else {
        CongSym(y[i], 0, p);
      }
    }
    SolutionLifts(t, m, orig, x, v, r, c, p);
  }

  lemma RankTestNecessary(t: Mat, m: Mat, orig: Mat, piv: seq<int>, v: Vec, r: nat, c: nat, p: int)
    requires Tracks(t, m, orig, r, c, p) && Reduced(m, piv, c, r, c) && |v| == r
    requires IsMat(t, r, r) && IsMat(orig, r, c)
    requires Solvable(orig, v, r, c, p)
    ensures PassesRankTest(t, v, |piv|, r, p)
  {
    var x: Vec :| |x| == c && VCong(MulVec(orig, x, r, c), v, p);
    var w := MulVec(orig, x, r, c);
    TracksMulVec(t, m, orig, x, r, c, p);
    MCongRefl(t, p);
    VCongSym(w, v, p);
    MulVecCong(t, t, v, w, r, r, p);
    forall i | |piv| <= i < r
      ensures Cong(Dot(t[i], v, r), 0, p)
    {
      ZeroRow(m, piv, x, i, r, c);
      CongTrans(Dot(t[i], v, r), Dot(t[i], w, r), Dot(m[i], x, c), p);
    }
  }

  lemma ZeroRow(m: Mat, piv: seq<int>, x: Vec, i: nat, r: nat, c: nat)
    requires Reduced(m, piv, c, r, c) && |x| == c && |piv| <= i < r
    ensures Dot(m[i], x, c) == 0
  {
    if c > 0 {
      DotSingle(m[i], x, 0, c);
    }
  }

  // ---------- the program ----------

  ghost predicate AllSolvable(orig: Mat, vs: Mat, n: nat, r: nat, c: nat, p: int)
    requires IsMat(orig, r, c) && IsMat(vs, n, r)
  {
    forall e :: 0 <= e < n ==> Solvable(orig, vs[e], r, c, p)
  }

  datatype Outcome = FormatError | Verdict(holds: bool)

  method TransposeSquare(m: array2<int>)
    requires m.Length0 == m.Length1
    modifies m
    ensures forall i, j :: 0 <= i < m.Length0 && 0 <= j < m.Length0 ==> m[i, j] == old(m[j, i])
  {
    for i := 0 to m.Length0
      invariant forall k, l :: 0 <= k < m.Length0 && 0 <= l < m.Length0 ==>
        m[k, l] == if k < i && l < i then old(m[l, k]) else old(m[k, l])
    {
      for j := 0 to i
        invariant forall k, l :: 0 <= k < m.Length0 && 0 <= l < m.Length0 ==>
          m[k, l] == if (k < i && l < i) || (k == i && l < j) || (l == i && k < j)
                     then old(m[l, k]) else old(m[k, l])
      {
        var t := m[i, j];
        m[i, j] := m[j, i];
        m[j, i] := t;
      }
    }
  }

  /** ans := (row i of vecs)·a, reduced. */
  method VectMatrixMult(ans: array<int>, vecs: array2<int>, e: nat, a: array2<int>, p: int)
    requires Modulus(p) && e < vecs.Length0
    requires vecs.Length1 == a.Length0 && ans.Length == a.Length1
    requires Canonical(Rows(vecs), p) && Canonical(Rows(a), p)
    modifies ans
    ensures forall j :: 0 <= j < a.Length1 ==>
      0 <= ans[j] < p && Cong(ans[j], Dot(Rows(vecs)[e], Col(Rows(a), j), a.Length0), p)
  {
    hide Modulus, Cong, Rows;
    ghost var v, b := Rows(vecs)[e], Rows(a);
    ModulusBound(p);
    for j := 0 to a.Length1
      invariant Rows(vecs)[e] == v && Rows(a) == b
      invariant forall l :: 0 <= l < j ==>
        0 <= ans[l] < p && Cong(ans[l], Dot(v, Col(b, l), a.Length0), p)
    {
      var t := 0;
      CongRefl(0, p);
      for i := 0 to a.Length0
        invariant forall l :: 0 <= l < j ==>
          0 <= ans[l] < p && Cong(ans[l], Dot(v, Col(b, l), a.Length0), p)
        invariant 0 <= t < p && Cong(t, Dot(v, Col(b, j), i), p)
      {
        assert vecs[e, i] == v[i] && a[i, j] == b[i][j] == Col(b, j)[i];
        t := AccumulateStep(t, vecs[e, i], a[i, j], p, v, Col(b, j), i);
      }
      ans[j] := t;
    }
  }

  method AccumulateStep(t0: int, x: int, y: int, p: int, ghost u: Vec, ghost w: Vec, ghost i: nat) returns (t: int)
    requires Modulus(p) && 0 <= t0 < p && 0 <= x < p && 0 <= y < p
    requires i < |u| && i < |w| && u[i] == x && w[i] == y
    requires Cong(t0, Dot(u, w, i), p)
    ensures 0 <= t < p && Cong(t, Dot(u, w, i + 1), p)
  {
    ProductFits(x, y, t0, p);
    assert x * y >= 0;
    t := Add64(t0, Mul64(x, y));
    CongRefl(x * y, p);
    CongAdd(t0, Dot(u, w, i), x * y, x * y, p);
    RemCong(t, p);
    CongTrans(Rem64(t, p), t, Dot(u, w, i + 1), p);
    t := Rem64(t, p);
  }

  method IsZeroVectFrom(vec: array<int>, from: nat, to: nat, p: int) returns (zero: bool)
    requires from <= to <= vec.Length && Fits64(p)
    requires forall k :: 0 <= k < to ==> 0 <= vec[k] < p
    ensures zero <==> forall k :: from <= k < to ==> Cong(vec[k], 0, p)
  {
    for i := from to to
      invariant forall k :: from <= k < i ==> Cong(vec[k], 0, p)
    {
      SmallMod(vec[i], p);
      if Rem64(vec[i], p) != 0 {
        if Cong(vec[i], 0, p) {
          CongUnique(vec[i], 0, p);
        }
        return false;
      }
      CongRefl(0, p);
    }
    return true;
  }

  /** The check accepts exactly when every row of `es2` lies in the column space of the matrix. */
  method Check(m: array2<int>, es2: array2<int>, p: int) returns (res: Outcome)
    requires Modulus(p) && m != es2
    requires Canonical(Rows(m), p) && Canonical(Rows(es2), p)
    modifies m
    ensures res == if es2.Length1 != m.Length0 then FormatError
                   else Verdict(AllSolvable(old(Rows(m)), Rows(es2), es2.Length0, m.Length0, m.Length1, p))
  {
    if es2.Length1 != m.Length0 {
      return FormatError;
    }
    hide *;
    ghost var orig := Rows(m);
    ghost var vs := Rows(es2);
    ghost var r, c := m.Length0, m.Length1;
    var t, indep, len := GaussElimFF(m, p);
    ghost var tm, mm, piv := Rows(t), Rows(m), indep[..len];
    AllRankTests(tm, mm, orig, piv, vs, es2.Length0, r, c, p);
    if len == m.Length0 {
      return Verdict(true);
    }
    var holds := TestRows(t, es2, len, p, tm, vs);
    res := Verdict(holds);
  }

  ghost predicate AllPass(t: Mat, vs: Mat, rank: nat, n: nat, r: nat, p: int)
    requires IsMat(t, r, r) && IsMat(vs, n, r)
  {
    forall e :: 0 <= e < n ==> PassesRankTest(t, vs[e], rank, r, p)
  }

  lemma AllRankTests(t: Mat, m: Mat, orig: Mat, piv: seq<int>, vs: Mat, n: nat, r: nat, c: nat, p: int)
    requires Tracks(t, m, orig, r, c, p) && Reduced(m, piv, c, r, c) && IsMat(vs, n, r)
    ensures IsMat(t, r, r) && IsMat(orig, r, c) && |piv| <= r && Canonical(t, p)
    ensures AllPass(t, vs, |piv|, n, r, p) <==> AllSolvable(orig, vs, n, r, c, p)
    ensures |piv| == r ==> AllSolvable(orig, vs, n, r, c, p)
  {
    forall e | 0 <= e < n
      ensures PassesRankTest(t, vs[e], |piv|, r, p) <==> Solvable(orig, vs[e], r, c, p)
    {
      RankTest(t, m, orig, piv, vs[e], r, c, p);
    }
  }

  /** Transpose the record and test every vector against it. */
  method TestRows(t: array2<int>, es2: array2<int>, len: nat, p: int, ghost tm: Mat, ghost vs: Mat) returns (holds: bool)
    requires Modulus(p) && t != es2 && t.Length0 == t.Length1 == es2.Length1 && len <= t.Length0
    requires tm == Rows(t) && vs == Rows(es2) && Canonical(tm, p) && Canonical(vs, p)
    modifies t
    ensures holds <==> AllPass(tm, vs, len, es2.Length0, t.Length0, p)
  {
    hide Modulus, Cong, Rows, Dot;
    ModulusBound(p);
    ghost var r := t.Length0;
    TransposeSquare(t);
    TransposedColumns(t, tm, p);
    var ans := new int[t.Length0];
    holds := true;
    for i := 0 to es2.Length0
      invariant Rows(es2) == vs
      invariant Canonical(Rows(t), p) && forall j :: 0 <= j < r ==> Col(Rows(t), j) == tm[j]
      invariant forall e :: 0 <= e < i ==> PassesRankTest(tm, vs[e], len, r, p)
    {
      ghost var b := Rows(t);
      VectMatrixMult(ans, es2, i, t, p);
      var zero := IsZeroVectFrom(ans, len, t.Length0, p);
      forall j | len <= j < r
        ensures Cong(ans[j], 0, p) <==> Cong(Dot(tm[j], vs[i], r), 0, p)
      {
        DotSymmetric(vs[i], tm[j], r);
        SameClass(ans[j], Dot(tm[j], vs[i], r), p);
      }
      if !zero {
        ghost var j :| len <= j < r && !Cong(ans[j], 0, p);
        assert !PassesRankTest(tm, vs[i], len, r, p);
        return false;
      }
    }
  }

  lemma SameClass(a: int, b: int, p: int)
    requires Cong(a, b, p)
    ensures Cong(a, 0, p) <==> Cong(b, 0, p)
  {
    CongSym(a, b, p);
    if Cong(a, 0, p) { CongTrans(b, a, 0, p); }
    if Cong(b, 0, p) { CongTrans(a, b, 0, p); }
  }

  lemma TransposedColumns(t: array2<int>, tm: Mat, p: int)
    requires t.Length0 == t.Length1 && IsMat(tm, t.Length0, t.Length0) && Canonical(tm, p)
    requires forall i, j :: 0 <= i < t.Length0 && 0 <= j < t.Length0 ==> t[i, j] == tm[j][i]
    ensures Canonical(Rows(t), p)
    ensures forall j :: 0 <= j < t.Length0 ==> Col(Rows(t), j) == tm[j]
  {
  }
}
