/** Gauss-Jordan elimination over F_p in place, after rank_check_ff.c. */
module GaussElim {
  import opened CInt64
  import opened Modular
  import opened InvFF
  import opened LinearAlgebra
  import opened RowOps

  ghost function RowOf(m: array2<int>, i: nat): (v: Vec)
    reads m
    requires i < m.Length0
    ensures |v| == m.Length1 && forall j :: 0 <= j < m.Length1 ==> v[j] == m[i, j]
  {
    seq(m.Length1, j requires 0 <= j < m.Length1 reads m => m[i, j])
  }

  ghost function Rows(m: array2<int>): (a: Mat)
    reads m
    ensures IsMat(a, m.Length0, m.Length1)
    ensures forall i, j :: 0 <= i < m.Length0 && 0 <= j < m.Length1 ==> a[i][j] == m[i, j]
  {
    seq(m.Length0, i requires 0 <= i < m.Length0 reads m => RowOf(m, i))
  }

  lemma SameRows(m: array2<int>, a: Mat)
    requires IsMat(a, m.Length0, m.Length1)
    requires forall i, j :: 0 <= i < m.Length0 && 0 <= j < m.Length1 ==> m[i, j] == a[i][j]
    ensures Rows(m) == a
  {
    forall i | 0 <= i < m.Length0
      ensures Rows(m)[i] == a[i]
    {
      assert forall j :: 0 <= j < m.Length1 ==> Rows(m)[i][j] == a[i][j];
    }
  }

  method IdentityMatrix(n: nat) returns (m: array2<int>)
    ensures fresh(m) && m.Length0 == m.Length1 == n
    ensures Rows(m) == Identity(n)
  {
    m := new int[n, n];
    for i := 0 to n
      invariant forall k, l :: 0 <= k < i && 0 <= l < n ==> m[k, l] == if k == l then 1 else 0
    {
      for j := 0 to n
        invariant forall k, l :: 0 <= k < i && 0 <= l < n ==> m[k, l] == if k == l then 1 else 0
        invariant forall l :: 0 <= l < j ==> m[i, l] == if i == l then 1 else 0
      {
        if i != j { m[i, j] := 0; } else { m[i, j] := 1; }
      }
    }
    SameRows(m, Identity(n));
  }

  method TransposeInto(dest: array2<int>, mat: array2<int>)
    requires dest != mat && dest.Length0 == mat.Length1 && dest.Length1 == mat.Length0
    modifies dest
    ensures forall i, j :: 0 <= i < mat.Length0 && 0 <= j < mat.Length1 ==> dest[j, i] == mat[i, j]
  {
    for i := 0 to mat.Length0
      invariant forall k, l :: 0 <= k < i && 0 <= l < mat.Length1 ==> dest[l, k] == mat[k, l]
    {
      for j := 0 to mat.Length1
        invariant forall k, l :: 0 <= k < i && 0 <= l < mat.Length1 ==> dest[l, k] == mat[k, l]
        invariant forall l :: 0 <= l < j ==> dest[l, i] == mat[i, l]
      {
        dest[j, i] := mat[i, j];
      }
    }
  }

  /** Exchange rows i and j. */
  method RowX(mat: array2<int>, i: nat, j: nat, p: int)
    requires i < mat.Length0 && j < mat.Length0 && p > 0 && Canonical(Rows(mat), p)
    modifies mat
    ensures Rows(mat) == ActMod(Swap(i, j), old(Rows(mat)), mat.Length0, mat.Length1, p)
  {
    ghost var a := Rows(mat);
    for q := 0 to mat.Length1
      invariant forall k, l :: 0 <= k < mat.Length0 && 0 <= l < mat.Length1 ==>
        mat[k, l] == if l < q then ActEntry(Swap(i, j), a, mat.Length0, mat.Length1, k, l) else a[k][l]
    {
      var t := mat[i, q];
      mat[i, q] := mat[j, q];
      mat[j, q] := t;
    }
    SmallMods(Swap(i, j), a, mat.Length0, mat.Length1, p);
    SameRows(mat, ActMod(Swap(i, j), a, mat.Length0, mat.Length1, p));
  }

  /** Rows an operation does not combine are already reduced. */
  lemma SmallMods(op: RowOp, a: Mat, r: nat, n: nat, p: int)
    requires IsMat(a, r, n) && InRange(op, r) && p > 0 && Canonical(a, p)
    ensures forall k, l :: 0 <= k < r && 0 <= l < n && (op.Swap? || k != op.i) ==>
      ActMod(op, a, r, n, p)[k][l] == ActEntry(op, a, r, n, k, l)
  {
    forall k, l | 0 <= k < r && 0 <= l < n && (op.Swap? || k != op.i)
      ensures ActMod(op, a, r, n, p)[k][l] == ActEntry(op, a, r, n, k, l)
    {
      var e := ActEntry(op, a, r, n, k, l);
      SmallMod(e, p);
    }
  }

  /** The truncated remainder, folded into [0, p), is the remainder of any congruent number. */
  lemma FoldedRem(x: int, y: int, p: int)
    requires Fits64(x) && Fits64(p) && p > 0 && Cong(x, y, p)
    ensures (if Rem64(x, p) < 0 then Rem64(x, p) + p else Rem64(x, p)) == y % p
  {
    var r := Rem64(x, p);
    var f := if r < 0 then r + p else r;
    RemCong(x, p);
    CongIntro(f, r, if r < 0 then 1 else 0, p);
    CongTrans(f, r, x, p);
    CongTrans(f, x, y, p);
    CongMod(y, p);
    CongSym(y % p, y, p);
    CongTrans(f, y, y % p, p);
    CongUnique(f, y % p, p);
  }

  /** Multiply row i by c. */
  method RowM(mat: array2<int>, i: nat, c: int, p: int)
    requires i < mat.Length0 && Modulus(p) && 0 <= c < p && Canonical(Rows(mat), p)
    modifies mat
    ensures Rows(mat) == ActMod(Scale(i, c), old(Rows(mat)), mat.Length0, mat.Length1, p)
  {
    ghost var a := Rows(mat);
    for q := 0 to mat.Length1
      invariant forall k, l :: 0 <= k < mat.Length0 && 0 <= l < mat.Length1 && (k != i || l >= q) ==>
        mat[k, l] == a[k][l]
      invariant forall l :: 0 <= l < q ==> mat[i, l] == (c * a[i][l]) % p
    {
      assert mat[i, q] == a[i][q];
      ScaledEntry(a[i][q], c, p);
      mat[i, q] := Mul64(mat[i, q], c);
      mat[i, q] := Rem64(mat[i, q], p);
      if mat[i, q] < 0 { mat[i, q] := Add64(mat[i, q], p); }
    }
    SmallMods(Scale(i, c), a, mat.Length0, mat.Length1, p);
    SameRows(mat, ActMod(Scale(i, c), a, mat.Length0, mat.Length1, p));
  }

  lemma ScaledEntry(x: int, c: int, p: int)
    requires Modulus(p) && 0 <= x < p && 0 <= c < p
    ensures Fits64(x) && Fits64(c) && Fits64(p) && Fits64(x * c)
    ensures (if Rem64(x * c, p) < 0 then Rem64(x * c, p) + p else Rem64(x * c, p)) == (c * x) % p
  {
    ProductFits(x, c, 0, p);
    assert x * c == c * x;
    CongRefl(c * x, p);
    FoldedRem(x * c, c * x, p);
  }

  /** Add c times row j to row i. */
  method RowA(mat: array2<int>, i: nat, j: nat, c: int, p: int)
    requires i < mat.Length0 && j < mat.Length0 && i != j
    requires Modulus(p) && -p < c < p && Canonical(Rows(mat), p)
    modifies mat
    ensures Rows(mat) == ActMod(AddMul(i, j, c), old(Rows(mat)), mat.Length0, mat.Length1, p)
  {
    ghost var a := Rows(mat);
    for q := 0 to mat.Length1
      invariant forall k, l :: 0 <= k < mat.Length0 && 0 <= l < mat.Length1 && (k != i || l >= q) ==>
        mat[k, l] == a[k][l]
      invariant forall l :: 0 <= l < q ==> mat[i, l] == (a[i][l] + c * a[j][l]) % p
    {
      assert mat[i, q] == a[i][q] && mat[j, q] == a[j][q];
      AddedEntry(a[i][q], c, a[j][q], p);
      mat[i, q] := Add64(mat[i, q], Rem64(Mul64(c, mat[j, q]), p));
      mat[i, q] := Rem64(mat[i, q], p);
      if mat[i, q] < 0 { mat[i, q] := Add64(mat[i, q], p); }
    }
    SmallMods(AddMul(i, j, c), a, mat.Length0, mat.Length1, p);
    SameRows(mat, ActMod(AddMul(i, j, c), a, mat.Length0, mat.Length1, p));
  }

  lemma AddedEntry(x: int, c: int, y: int, p: int)
    requires Modulus(p) && 0 <= x < p && -p < c < p && 0 <= y < p
    ensures Fits64(x) && Fits64(c) && Fits64(y) && Fits64(p) && Fits64(c * y)
    ensures var s := x + Rem64(c * y, p);
      Fits64(s) && (if Rem64(s, p) < 0 then Rem64(s, p) + p else Rem64(s, p)) == (x + c * y) % p
  {
    ProductFits(c, y, 0, p);
    ModulusBound(p);
    var t := Rem64(c * y, p);
    RemCong(c * y, p);
    CongRefl(x, p);
    CongAdd(x, x, t, c * y, p);
    FoldedRem(x + t, x + c * y, p);
  }

  method IsZeroVect(mt: array2<int>, j: nat, n: nat, p: int) returns (zero: bool)
    requires j < mt.Length0 && n == mt.Length1
    requires Fits64(p) && forall k :: 0 <= k < n ==> 0 <= mt[j, k] < p
    ensures zero <==> forall k :: 0 <= k < n ==> mt[j, k] == 0
  {
    for i := 0 to n
      invariant forall k :: 0 <= k < i ==> mt[j, k] == 0
    {
      SmallMod(mt[j, i], p);
      if Rem64(mt[j, i], p) != 0 { return false; }
    }
    return true;
  }

  // ---------- the shape reached so far ----------

  /** Columns before `cc` are finished: pivot columns are unit columns at strictly
      increasing positions, pivot rows are zero before their pivot, the rows below
      the pivot rows are zero. */
  ghost predicate Reduced(a: Mat, piv: seq<int>, cc: nat, r: nat, c: nat) {
    && IsMat(a, r, c) && |piv| <= r && cc <= c
    && (forall k, l :: 0 <= k < l < |piv| ==> piv[k] < piv[l])
    && (forall k :: 0 <= k < |piv| ==> 0 <= piv[k] < cc)
    && (forall k, i :: 0 <= k < |piv| && 0 <= i < r ==> a[i][piv[k]] == if i == k then 1 else 0)
    && (forall k, j :: 0 <= k < |piv| && 0 <= j < piv[k] ==> a[k][j] == 0)
    && (forall i, j :: |piv| <= i < r && 0 <= j < cc ==> a[i][j] == 0)
  }

  /** The operations of one pivot step only touch columns that are not finished. */
  lemma ReducedKeeps(op: RowOp, a: Mat, piv: seq<int>, cc: nat, r: nat, c: nat, p: int)
    requires Reduced(a, piv, cc, r, c) && InRange(op, r) && p >= 2 && Canonical(a, p)
    requires match op
      case Swap(i, j) => i == |piv| <= j
      case Scale(i, _) => i == |piv|
      case AddMul(_, j, _) => j == |piv|
    ensures Reduced(ActMod(op, a, r, c, p), piv, cc, r, c)
  {
    var b := ActMod(op, a, r, c, p);
    forall i, j | 0 <= i < r && 0 <= j < cc
      ensures b[i][j] == a[i][j]
    {
      ReducedKeepsEntry(op, a, piv, cc, r, c, p, i, j);
    }
  }

  lemma ReducedKeepsEntry(op: RowOp, a: Mat, piv: seq<int>, cc: nat, r: nat, c: nat, p: int, i: nat, j: nat)
    requires Reduced(a, piv, cc, r, c) && InRange(op, r) && p >= 2 && Canonical(a, p)
    requires match op
      case Swap(k, l) => k == |piv| <= l
      case Scale(k, _) => k == |piv|
      case AddMul(_, l, _) => l == |piv|
    requires i < r && j < cc
    ensures ActMod(op, a, r, c, p)[i][j] == a[i][j]
  {
    assert a[|piv|][j] == 0;
    assert ActEntry(op, a, r, c, i, j) == a[i][j];
    SmallMod(a[i][j], p);
  }

  /** Rows `below k` (except the pivot row) are already cleared in column jj. */
  ghost predicate Cleared(a: Mat, cr: nat, jj: nat, k: nat, r: nat, c: nat)
    requires IsMat(a, r, c) && jj < c && cr < r && k <= r
  {
    && a[cr][jj] == 1
    && forall i :: 0 <= i < k && i != cr ==> a[i][jj] == 0
  }

  lemma ClearedInit(a: Mat, cr: nat, jj: nat, r: nat, c: nat)
    requires IsMat(a, r, c) && jj < c && cr < r && a[cr][jj] == 1
    ensures Cleared(a, cr, jj, 0, r, c)
  {
  }

  lemma ClearedSkip(a: Mat, cr: nat, jj: nat, k: nat, r: nat, c: nat)
    requires IsMat(a, r, c) && jj < c && cr < r && k < r && Cleared(a, cr, jj, k, r, c)
    requires k == cr || a[k][jj] == 0
    ensures Cleared(a, cr, jj, k + 1, r, c)
  {
  }

  /** Clearing row k in column jj, when the pivot entry is 1. */
  lemma ClearsRow(a: Mat, cr: nat, jj: nat, k: nat, r: nat, c: nat, p: int)
    requires IsMat(a, r, c) && jj < c && cr < r && k < r && k != cr && p >= 2 && Canonical(a, p)
    requires Cleared(a, cr, jj, k, r, c)
    ensures Cleared(ActMod(AddMul(k, cr, -a[k][jj]), a, r, c, p), cr, jj, k + 1, r, c)
  {
    var op := AddMul(k, cr, -a[k][jj]);
    SmallMods(op, a, r, c, p);
    assert ActEntry(op, a, r, c, k, jj) == 0;
    SmallMod(0, p);
  }

  /** A finished column extends the shape. */
  lemma ReducedExtend(a: Mat, piv: seq<int>, jj: nat, r: nat, c: nat)
    requires Reduced(a, piv, jj, r, c) && jj < c && |piv| < r
    requires Cleared(a, |piv|, jj, r, r, c)
    ensures Reduced(a, piv + [jj], jj + 1, r, c)
  {
    var piv' := piv + [jj];
    forall k, i | 0 <= k < |piv'| && 0 <= i < r
      ensures a[i][piv'[k]] == if i == k then 1 else 0
    {
    }
  }

  method FindColumn(m: array2<int>, cc: nat, p: int) returns (jj: nat)
    requires Modulus(p) && cc < m.Length1 && Canonical(Rows(m), p)
    ensures cc <= jj <= m.Length1
    ensures forall i, j :: 0 <= i < m.Length0 && cc <= j < jj ==> m[i, j] == 0
    ensures jj < m.Length1 ==> exists i :: 0 <= i < m.Length0 && m[i, jj] != 0
  {
    ModulusBound(p);
    ProductFits(0, 0, 0, p);
    ghost var a := Rows(m);
    var mt := new int[m.Length1, m.Length0];
    TransposeInto(mt, m);
    assert forall i, j :: 0 <= i < m.Length0 && 0 <= j < m.Length1 ==> mt[j, i] == a[i][j];
    jj := cc;
    while jj < m.Length1
      invariant cc <= jj <= m.Length1
      invariant forall i, j :: 0 <= i < m.Length0 && 0 <= j < m.Length1 ==> mt[j, i] == a[i][j]
      invariant forall i, j :: 0 <= i < m.Length0 && cc <= j < jj ==> a[i][j] == 0
    {
      forall k | 0 <= k < m.Length0
        ensures mt[jj, k] == a[k][jj] && 0 <= mt[jj, k] < p
      {
        assert a[k][jj] == m[k, jj];
      }
      var zero := IsZeroVect(mt, jj, m.Length0, p);
      if !zero {
        ghost var i :| 0 <= i < m.Length0 && mt[jj, i] != 0;
        assert a[i][jj] != 0;
        break;
      }
      forall i | 0 <= i < m.Length0
        ensures a[i][jj] == 0
      {
        assert mt[jj, i] == a[i][jj];
      }
      jj := jj + 1;
    }
  }

  method FindPivotRow(m: array2<int>, cr: nat, jj: nat) returns (i: nat)
    requires cr < m.Length0 && jj < m.Length1
    ensures cr <= i <= m.Length0
    ensures forall k :: cr <= k < i ==> m[k, jj] == 0
    ensures i < m.Length0 ==> m[i, jj] != 0
  {
    i := cr;
    while i < m.Length0 && m[i, jj] == 0
      invariant cr <= i <= m.Length0
      invariant forall k :: cr <= k < i ==> m[k, jj] == 0
    {
      i := i + 1;
    }
  }

  /** Put row i in place and make its entry in column jj equal to 1, on both matrices. */
  method NormalizePivot(m: array2<int>, t: array2<int>, cr: nat, i: nat, jj: nat, p: int,
                        ghost orig: Mat, ghost piv: seq<int>)
    requires Modulus(p) && m != t
    requires t.Length0 == t.Length1 == m.Length0
    requires Tracks(Rows(t), Rows(m), orig, m.Length0, m.Length1, p)
    requires jj < m.Length1 && Reduced(Rows(m), piv, jj, m.Length0, m.Length1)
    requires cr == |piv| <= i < m.Length0 && m[i, jj] != 0
    modifies m, t
    ensures Tracks(Rows(t), Rows(m), orig, m.Length0, m.Length1, p)
    ensures Reduced(Rows(m), piv, jj, m.Length0, m.Length1)
    ensures m[cr, jj] == 1
  {
    hide Tracks, Reduced, Modulus, MatMul, Cong;
    ghost var r, c := m.Length0, m.Length1;
    ModulusBound(p);
    TracksShape(Rows(t), Rows(m), orig, r, c, p);
    ghost var swap := Swap(cr, i);
    TracksStep(swap, 0, Rows(t), Rows(m), orig, r, c, p);
    ReducedKeeps(swap, Rows(m), piv, jj, r, c, p);
    SwapsIn(Rows(m), cr, i, jj, r, c, p);
    RowX(t, cr, i, p);
    RowX(m, cr, i, p);
    TracksShape(Rows(t), Rows(m), orig, r, c, p);
    ghost var a := Rows(m);
    assert a[cr][jj] == m[cr, jj] != 0;
    var inv := Inv(m[cr, jj], p);
    ghost var scale := Scale(cr, inv);
    CongSwap(inv, m[cr, jj], p);
    TracksStep(scale, m[cr, jj], Rows(t), Rows(m), orig, r, c, p);
    ReducedKeeps(scale, Rows(m), piv, jj, r, c, p);
    RowM(t, cr, inv, p);
    assert Rows(m) == a;
    inv := Inv(m[cr, jj], p);
    InverseUnique(inv, scale.c, a[cr][jj], p);
    ScalesToOne(inv, a[cr][jj], p);
    RowM(m, cr, inv, p);
  }

  lemma TracksShape(t: Mat, m: Mat, orig: Mat, r: nat, c: nat, p: int)
    requires Tracks(t, m, orig, r, c, p)
    ensures IsMat(t, r, r) && IsMat(m, r, c) && Canonical(t, p) && Canonical(m, p)
  {
  }

  lemma SwapsIn(a: Mat, cr: nat, i: nat, jj: nat, r: nat, c: nat, p: int)
    requires IsMat(a, r, c) && p > 0 && Canonical(a, p) && cr < r && i < r && jj < c
    ensures ActMod(Swap(cr, i), a, r, c, p)[cr][jj] == a[i][jj]
  {
    SmallMods(Swap(cr, i), a, r, c, p);
  }

  /** The inverse is the same however often it is computed. */
  lemma InverseUnique(x: int, y: int, a: int, p: int)
    requires 0 <= x < p && 0 <= y < p && Cong(x * a, 1, p) && Cong(y * a, 1, p)
    ensures x == y
  {
    CongScale(y, x * a, 1, p);
    CongScale(x, y * a, 1, p);
    assert y * (x * a) == x * (y * a);
    CongSym(x * (y * a), x, p);
    CongTrans(x, x * (y * a), y, p);
    CongUnique(x, y, p);
  }

  lemma CongSwap(x: int, y: int, p: int)
    requires Cong(x * y, 1, p)
    ensures Cong(y * x, 1, p)
  {
    assert x * y == y * x;
  }

  lemma ScalesToOne(inv: int, x: int, p: int)
    requires p >= 2 && Cong(inv * x, 1, p)
    ensures (inv * x) % p == 1
  {
    CongMod(inv * x, p);
    CongTrans((inv * x) % p, inv * x, 1, p);
    CongUnique((inv * x) % p, 1, p);
  }

  /** Clear column jj outside the pivot row, on both matrices. */
  method ClearColumn(m: array2<int>, t: array2<int>, cr: nat, jj: nat, p: int,
                     ghost orig: Mat, ghost piv: seq<int>)
    requires Modulus(p) && m != t
    requires t.Length0 == t.Length1 == m.Length0
    requires Tracks(Rows(t), Rows(m), orig, m.Length0, m.Length1, p)
    requires jj < m.Length1 && Reduced(Rows(m), piv, jj, m.Length0, m.Length1)
    requires cr == |piv| < m.Length0 && m[cr, jj] == 1
    modifies m, t
    ensures Tracks(Rows(t), Rows(m), orig, m.Length0, m.Length1, p)
    ensures Reduced(Rows(m), piv + [jj], jj + 1, m.Length0, m.Length1)
  {
    hide Tracks, Reduced, Modulus, MatMul, Cong, ActMod, Cleared;
    ghost var r, c := m.Length0, m.Length1;
    ModulusBound(p);
    TracksShape(Rows(t), Rows(m), orig, r, c, p);
    ClearedInit(Rows(m), cr, jj, r, c);
    for k := 0 to m.Length0
      invariant Tracks(Rows(t), Rows(m), orig, r, c, p)
      invariant Reduced(Rows(m), piv, jj, r, c)
      invariant Cleared(Rows(m), cr, jj, k, r, c)
    {
      TracksShape(Rows(t), Rows(m), orig, r, c, p);
      if k != cr && m[k, jj] != 0 {
        ghost var op := AddMul(k, cr, -m[k, jj]);
        TracksStep(op, 0, Rows(t), Rows(m), orig, r, c, p);
        ReducedKeeps(op, Rows(m), piv, jj, r, c, p);
        ClearsRow(Rows(m), cr, jj, k, r, c, p);
        RowA(t, k, cr, -m[k, jj], p);
        RowA(m, k, cr, -m[k, jj], p);
      } else {
        ClearedSkip(Rows(m), cr, jj, k, r, c);
      }
    }
    ReducedExtend(Rows(m), piv, jj, r, c);
  }

  /** A column without a candidate below the pivot rows is finished as it is. */
  lemma ReducedSkip(a: Mat, piv: seq<int>, cc: nat, jj: nat, r: nat, c: nat)
    requires Reduced(a, piv, cc, r, c) && cc <= jj <= c
    requires forall i, j :: |piv| <= i < r && cc <= j < jj ==> a[i][j] == 0
    ensures Reduced(a, piv, jj, r, c)
  {
  }

  lemma ReducedInit(a: Mat, r: nat, c: nat)
    requires IsMat(a, r, c)
    ensures Reduced(a, [], 0, r, c)
  {
  }

  lemma TracksInit(orig: Mat, r: nat, c: nat, p: int)
    requires IsMat(orig, r, c) && p >= 2 && Canonical(orig, p)
    ensures Tracks(Identity(r), orig, orig, r, c, p)
  {
    IdentityInvertible(r, p);
    IdentityMul(orig, r, c);
    MCongRefl(orig, p);
  }

  /** One round of the loop for column jj: a pivot at or below row cr is moved into place and
      its column cleared, or there is none and the column is finished as it is. */
  method PivotStep(m: array2<int>, t: array2<int>, cr: nat, jj: nat, p: int,
                   ghost orig: Mat, ghost piv: seq<int>) returns (found: bool)
    requires Modulus(p) && m != t
    requires t.Length0 == t.Length1 == m.Length0
    requires Tracks(Rows(t), Rows(m), orig, m.Length0, m.Length1, p)
    requires jj < m.Length1 && Reduced(Rows(m), piv, jj, m.Length0, m.Length1)
    requires cr == |piv| < m.Length0
    modifies m, t
    ensures Tracks(Rows(t), Rows(m), orig, m.Length0, m.Length1, p)
    ensures Reduced(Rows(m), if found then piv + [jj] else piv, jj + 1, m.Length0, m.Length1)
  {
    hide Tracks, Reduced, Modulus, MatMul, Cong;
    var i := FindPivotRow(m, cr, jj);
    found := i < m.Length0;
    if found {
      NormalizePivot(m, t, cr, i, jj, p, orig, piv);
      ClearColumn(m, t, cr, jj, p, orig, piv);
    } else {
      ReducedSkip(Rows(m), piv, jj, jj + 1, m.Length0, m.Length1);
    }
  }

  /** The whole elimination: `m` becomes the reduced row echelon form, `t` the invertible
      matrix with t·original ≡ m, `indep[..len]` the pivot columns. */
  method GaussElimFF(m: array2<int>, p: int) returns (t: array2<int>, indep: array<int>, len: nat)
    requires Modulus(p) && Canonical(Rows(m), p)
    modifies m
    ensures fresh(t) && t.Length0 == t.Length1 == m.Length0
    ensures fresh(indep) && len <= indep.Length == m.Length1
    ensures Tracks(Rows(t), Rows(m), old(Rows(m)), m.Length0, m.Length1, p)
    ensures Reduced(Rows(m), indep[..len], m.Length1, m.Length0, m.Length1)
  {
    hide Tracks, Reduced, Modulus, MatMul, Cong;
    ghost var orig := Rows(m);
    ghost var r, c := m.Length0, m.Length1;
    ModulusBound(p);
    ReducedInit(orig, r, c);
    t := IdentityMatrix(m.Length0);
    TracksInit(orig, r, c, p);
    indep := new int[m.Length1];
    len := 0;
    var cr, cc := 0, 0;
    ghost var piv: seq<int> := [];
    while cr < m.Length0 && cc < m.Length1
      invariant cr == len <= cc <= c + 1 && len <= c && cr <= r
      invariant piv == indep[..len]
      invariant Tracks(Rows(t), Rows(m), orig, r, c, p)
      invariant Reduced(Rows(m), piv, if cc <= c then cc else c, r, c)
      decreases c + 1 - cc
    {
      TracksShape(Rows(t), Rows(m), orig, r, c, p);
      var jj := FindColumn(m, cc, p);
      ReducedSkip(Rows(m), piv, cc, jj, r, c);
      if jj < m.Length1 {
        var found := PivotStep(m, t, cr, jj, p, orig, piv);
        if found {
          cr := cr + 1;
          indep[len] := jj;
          len := len + 1;
          piv := piv + [jj];
        }
      }
      cc := jj + 1;
    }
    ghost var done := if cc <= c then cc else c;
    assert done == c || cr == r;
    ReducedSkip(Rows(m), piv, done, c, r, c);
  }
}
