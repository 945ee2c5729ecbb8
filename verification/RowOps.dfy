/** The three elementary row operations, exactly and modulo p. */
module RowOps {
  import opened Modular
  import opened LinearAlgebra

  datatype RowOp =
    | Swap(i: nat, j: nat)
    | Scale(i: nat, c: int)
    | AddMul(i: nat, j: nat, c: int)   // row i += c * row j

  predicate InRange(op: RowOp, r: nat) {
    match op
    case Swap(i, j) => i < r && j < r
    case Scale(i, c) => i < r
    case AddMul(i, j, c) => i < r && j < r && i != j
  }

  /** Row k after the operation, entry by entry. */
  function ActEntry(op: RowOp, a: Mat, r: nat, n: nat, k: nat, l: nat): int
    requires IsMat(a, r, n) && InRange(op, r) && k < r && l < n
  {
    match op
    case Swap(i, j) => if k == i then a[j][l] else if k == j then a[i][l] else a[k][l]
    case Scale(i, c) => if k == i then c * a[i][l] else a[k][l]
    case AddMul(i, j, c) => if k == i then a[i][l] + c * a[j][l] else a[k][l]
  }

  function ActRow(op: RowOp, a: Mat, r: nat, n: nat, k: nat): (v: Vec)
    requires IsMat(a, r, n) && InRange(op, r) && k < r
    ensures |v| == n && forall l :: 0 <= l < n ==> v[l] == ActEntry(op, a, r, n, k, l)
  {
    seq(n, l requires 0 <= l < n => ActEntry(op, a, r, n, k, l))
  }

  function Act(op: RowOp, a: Mat, r: nat, n: nat): (m: Mat)
    requires IsMat(a, r, n) && InRange(op, r)
    ensures IsMat(m, r, n) && forall k :: 0 <= k < r ==> m[k] == ActRow(op, a, r, n, k)
  {
    seq(r, k requires 0 <= k < r => ActRow(op, a, r, n, k))
  }

  /** A row operation on the left factor is the row operation on the product. */
  lemma ActMul(op: RowOp, a: Mat, b: Mat, r: nat, n: nat, c: nat)
    requires IsMat(a, r, n) && IsMat(b, n, c) && InRange(op, r)
    ensures MatMul(Act(op, a, r, n), b, r, n, c) == Act(op, MatMul(a, b, r, n, c), r, c)
  {
    forall k | 0 <= k < r
      ensures MulRow(ActRow(op, a, r, n, k), b, n, c) == ActRow(op, MatMul(a, b, r, n, c), r, c, k)
    {
      ActMulRow(op, a, b, r, n, c, k);
    }
  }

  lemma ActMulRow(op: RowOp, a: Mat, b: Mat, r: nat, n: nat, c: nat, k: nat)
    requires IsMat(a, r, n) && IsMat(b, n, c) && InRange(op, r) && k < r
    ensures MulRow(ActRow(op, a, r, n, k), b, n, c) == ActRow(op, MatMul(a, b, r, n, c), r, c, k)
  {
    forall l | 0 <= l < c
      ensures Dot(ActRow(op, a, r, n, k), Col(b, l), n) == ActEntry(op, MatMul(a, b, r, n, c), r, c, k, l)
    {
      ActMulEntry(op, a, b, r, n, c, k, l);
    }
  }

  lemma ActMulEntry(op: RowOp, a: Mat, b: Mat, r: nat, n: nat, c: nat, k: nat, l: nat)
    requires IsMat(a, r, n) && IsMat(b, n, c) && InRange(op, r) && k < r && l < c
    ensures Dot(ActRow(op, a, r, n, k), Col(b, l), n) == ActEntry(op, MatMul(a, b, r, n, c), r, c, k, l)
  {
    var row := ActRow(op, a, r, n, k);
    match op
    case Swap(i, j) =>
      assert row == if k == i then a[j] else if k == j then a[i] else a[k];
    case Scale(i, f) =>
      if k == i {
        DotScale(row, a[i], f, Col(b, l), n);
      } else {
        assert row == a[k];
      }
    case AddMul(i, j, f) =>
      if k == i {
        DotLinear(row, a[i], a[j], f, Col(b, l), n);
      } else {
        assert row == a[k];
      }
  }

  lemma ActCong(op: RowOp, a: Mat, b: Mat, r: nat, n: nat, p: int)
    requires IsMat(a, r, n) && IsMat(b, r, n) && InRange(op, r) && MCong(a, b, p)
    ensures MCong(Act(op, a, r, n), Act(op, b, r, n), p)
  {
    forall k | 0 <= k < r
      ensures VCong(ActRow(op, a, r, n, k), ActRow(op, b, r, n, k), p)
    {
      assert forall m :: 0 <= m < r ==> VCong(a[m], b[m], p);
      forall l | 0 <= l < n
        ensures Cong(ActEntry(op, a, r, n, k, l), ActEntry(op, b, r, n, k, l), p)
      {
        match op
        case Swap(i, j) =>
        case Scale(i, f) =>
          CongScale(f, a[i][l], b[i][l], p);
        case AddMul(i, j, f) =>
          CongScale(f, a[j][l], b[j][l], p);
          CongAdd(a[i][l], b[i][l], f * a[j][l], f * b[j][l], p);
      }
    }
  }

  /** The operation that undoes `op`; `ci` inverts the factor of a scaling. */
  function Undo(op: RowOp, ci: int): RowOp {
    match op
    case Swap(i, j) => Swap(i, j)
    case Scale(i, c) => Scale(i, ci)
    case AddMul(i, j, c) => AddMul(i, j, -c)
  }

  ghost predicate Reversible(op: RowOp, ci: int, p: int) {
    op.Scale? ==> Cong(ci * op.c, 1, p)
  }

  lemma UndoAct(op: RowOp, ci: int, a: Mat, r: nat, n: nat, p: int)
    requires IsMat(a, r, n) && InRange(op, r) && Reversible(op, ci, p)
    ensures MCong(Act(Undo(op, ci), Act(op, a, r, n), r, n), a, p)
  {
    var m := Act(op, a, r, n);
    forall k | 0 <= k < r
      ensures VCong(ActRow(Undo(op, ci), m, r, n, k), a[k], p)
    {
      forall l | 0 <= l < n
        ensures Cong(ActEntry(Undo(op, ci), m, r, n, k, l), a[k][l], p)
      {
        UndoActEntry(op, ci, a, m, r, n, k, l, p);
      }
    }
  }

  lemma UndoActEntry(op: RowOp, ci: int, a: Mat, m: Mat, r: nat, n: nat, k: nat, l: nat, p: int)
    requires IsMat(a, r, n) && InRange(op, r) && Reversible(op, ci, p) && k < r && l < n
    requires m == Act(op, a, r, n)
    ensures Cong(ActEntry(Undo(op, ci), m, r, n, k, l), a[k][l], p)
  {
    CongRefl(a[k][l], p);
    match op
    case Swap(i, j) =>
    case Scale(i, c) =>
      if k == i {
        CongScale(a[i][l], ci * c, 1, p);
        assert a[i][l] * (ci * c) == ci * (c * a[i][l]);
      }
    case AddMul(i, j, c) =>
      if k == i {
        assert c * a[j][l] + -c * a[j][l] == 0;
      }
  }

  lemma UndoReversible(op: RowOp, ci: int, p: int)
    requires Reversible(op, ci, p)
    ensures op.Scale? ==> Reversible(Undo(op, ci), op.c, p)
    ensures forall x :: Undo(Undo(op, ci), x) == if op.Scale? then op.(c := x) else op
  {
    if op.Scale? {
      assert op.c * ci == ci * op.c;
    }
  }

  /** Applying the undoing operation first is undone as well. */
  lemma ActUndo(op: RowOp, ci: int, a: Mat, r: nat, n: nat, p: int)
    requires IsMat(a, r, n) && InRange(op, r) && Reversible(op, ci, p)
    ensures InRange(Undo(op, ci), r)
    ensures MCong(Act(op, Act(Undo(op, ci), a, r, n), r, n), a, p)
  {
    UndoReversible(op, ci, p);
    var c := if op.Scale? then op.c else 0;
    UndoAct(Undo(op, ci), c, a, r, n, p);
  }

  /** A row operation keeps a square matrix invertible. */
  lemma ActInvertible(op: RowOp, ci: int, a: Mat, a': Mat, n: nat, p: int)
    requires IsMat(a, n, n) && IsMat(a', n, n) && InRange(op, n) && Reversible(op, ci, p)
    requires MCong(a', Act(op, a, n, n), p)
    requires Invertible(a, n, p)
    ensures Invertible(a', n, p)
  {
    var q :| IsMat(q, n, n) && Inverses(a, q, n, p);
    var un := Undo(op, ci);
    var e := Act(un, Identity(n), n, n);
    var q' := MatMul(q, e, n, n, n);
    LeftOfUndone(op, ci, a, a', q, e, n, p);
    RightOfUndone(op, ci, a, a', q, e, n, p);
    assert Inverses(a', q', n, p);
  }

  lemma LeftOfUndone(op: RowOp, ci: int, a: Mat, a': Mat, q: Mat, e: Mat, n: nat, p: int)
    requires IsMat(a, n, n) && IsMat(a', n, n) && IsMat(q, n, n)
    requires InRange(op, n) && Reversible(op, ci, p)
    requires MCong(a', Act(op, a, n, n), p)
    requires Inverses(a, q, n, p)
    requires e == Act(Undo(op, ci), Identity(n), n, n)
    ensures MCong(MatMul(MatMul(q, e, n, n, n), a', n, n, n), Identity(n), p)
  {
    var un := Undo(op, ci);
    MatMulAssoc(q, e, a', n, n, n, n);
    ActMul(un, Identity(n), a', n, n, n);
    IdentityMul(a', n, n);
    ActCong(un, a', Act(op, a, n, n), n, n, p);
    UndoAct(op, ci, a, n, n, p);
    MCongTrans(Act(un, a', n, n), Act(un, Act(op, a, n, n), n, n), a, p);
    MCongRefl(q, p);
    MatMulCong(q, q, Act(un, a', n, n), a, n, n, n, p);
    MCongTrans(MatMul(q, Act(un, a', n, n), n, n, n), MatMul(q, a, n, n, n), Identity(n), p);
  }

  lemma RightOfUndone(op: RowOp, ci: int, a: Mat, a': Mat, q: Mat, e: Mat, n: nat, p: int)
    requires IsMat(a, n, n) && IsMat(a', n, n) && IsMat(q, n, n)
    requires InRange(op, n) && Reversible(op, ci, p)
    requires MCong(a', Act(op, a, n, n), p)
    requires Inverses(a, q, n, p)
    requires e == Act(Undo(op, ci), Identity(n), n, n)
    ensures MCong(MatMul(a', MatMul(q, e, n, n, n), n, n, n), Identity(n), p)
  {
    var q' := MatMul(q, e, n, n, n);
    MCongRefl(q', p);
    MatMulCong(a', Act(op, a, n, n), q', q', n, n, n, p);
    ActMul(op, a, q', n, n, n);
    MatMulAssoc(a, q, e, n, n, n, n);
    MCongRefl(e, p);
    MatMulCong(MatMul(a, q, n, n, n), Identity(n), e, e, n, n, n, p);
    IdentityMul(e, n, n);
    ActCong(op, MatMul(a, q', n, n, n), e, n, n, p);
    ActUndo(op, ci, Identity(n), n, n, p);
    var aq' := MatMul(a', q', n, n, n);
    MCongTrans(aq', Act(op, MatMul(a, q', n, n, n), n, n), Act(op, e, n, n), p);
    MCongTrans(aq', Act(op, e, n, n), Identity(n), p);
  }

  /** The identity is invertible. */
  lemma IdentityInvertible(n: nat, p: int)
    ensures Invertible(Identity(n), n, p)
  {
    IdentityMul(Identity(n), n, n);
    MCongRefl(Identity(n), p);
    assert Inverses(Identity(n), Identity(n), n, p);
  }

  // ---------- representatives ----------

  predicate Canonical(a: Mat, p: int) {
    forall i :: 0 <= i < |a| ==> forall j :: 0 <= j < |a[i]| ==> 0 <= a[i][j] < p
  }

  function ReducedRow(op: RowOp, a: Mat, r: nat, n: nat, p: int, k: nat): (v: Vec)
    requires IsMat(a, r, n) && InRange(op, r) && p > 0 && k < r
    ensures |v| == n && forall l :: 0 <= l < n ==> v[l] == ActEntry(op, a, r, n, k, l) % p
  {
    seq(n, l requires 0 <= l < n => ActEntry(op, a, r, n, k, l) % p)
  }

  /** The operation with every entry reduced into [0, p). */
  function ActMod(op: RowOp, a: Mat, r: nat, n: nat, p: int): (m: Mat)
    requires IsMat(a, r, n) && InRange(op, r) && p > 0
    ensures IsMat(m, r, n) && Canonical(m, p)
    ensures forall k :: 0 <= k < r ==> m[k] == ReducedRow(op, a, r, n, p, k)
  {
    seq(r, k requires 0 <= k < r => ReducedRow(op, a, r, n, p, k))
  }

  lemma ActModCong(op: RowOp, a: Mat, r: nat, n: nat, p: int)
    requires IsMat(a, r, n) && InRange(op, r) && p > 0
    ensures MCong(ActMod(op, a, r, n, p), Act(op, a, r, n), p)
  {
    forall k | 0 <= k < r
      ensures VCong(ReducedRow(op, a, r, n, p, k), ActRow(op, a, r, n, k), p)
    {
      forall l | 0 <= l < n
        ensures Cong(ActEntry(op, a, r, n, k, l) % p, ActEntry(op, a, r, n, k, l), p)
      {
        CongMod(ActEntry(op, a, r, n, k, l), p);
      }
    }
  }

  /** `t` is the invertible record of the row operations that led from `orig` to `m`. */
  ghost predicate Tracks(t: Mat, m: Mat, orig: Mat, r: nat, c: nat, p: int) {
    && IsMat(t, r, r) && IsMat(m, r, c) && IsMat(orig, r, c)
    && Canonical(t, p) && Canonical(m, p)
    && Invertible(t, r, p)
    && MCong(MatMul(t, orig, r, r, c), m, p)
  }

  /** Performing one operation on both matrices keeps the record. */
  lemma TracksStep(op: RowOp, ci: int, t: Mat, m: Mat, orig: Mat, r: nat, c: nat, p: int)
    requires Tracks(t, m, orig, r, c, p) && p > 0
    requires InRange(op, r) && Reversible(op, ci, p)
    ensures Tracks(ActMod(op, t, r, r, p), ActMod(op, m, r, c, p), orig, r, c, p)
  {
    var t', m' := ActMod(op, t, r, r, p), ActMod(op, m, r, c, p);
    ActModCong(op, t, r, r, p);
    ActInvertible(op, ci, t, t', r, p);
    TracksProduct(op, t, t', m, m', orig, r, c, p);
  }

  lemma TracksProduct(op: RowOp, t: Mat, t': Mat, m: Mat, m': Mat, orig: Mat, r: nat, c: nat, p: int)
    requires Tracks(t, m, orig, r, c, p) && p > 0 && InRange(op, r)
    requires t' == ActMod(op, t, r, r, p) && m' == ActMod(op, m, r, c, p)
    ensures MCong(MatMul(t', orig, r, r, c), m', p)
  {
    ActModCong(op, t, r, r, p);
    ActModCong(op, m, r, c, p);
    MCongRefl(orig, p);
    MatMulCong(t', Act(op, t, r, r), orig, orig, r, r, c, p);
    ActMul(op, t, orig, r, r, c);
    ActCong(op, MatMul(t, orig, r, r, c), m, r, c, p);
    var pm := MatMul(t', orig, r, r, c);
    MCongTrans(pm, Act(op, MatMul(t, orig, r, r, c), r, c), Act(op, m, r, c), p);
    MCongSym(m', Act(op, m, r, c), p);
    MCongTrans(pm, Act(op, m, r, c), m', p);
  }
}
