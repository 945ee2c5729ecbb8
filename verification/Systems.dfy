/** Systems of linear equations over F_p: solutions, triangular systems, and the
    uniqueness of the reduced form. */
module Systems {
  import opened Modular
  import opened FieldFF
  import opened SparsePoly

  ghost predicate Vanishes(f: Poly, x: Assignment, p: int) {
    Cong(Eval(f, x), 0, p)
  }

  ghost predicate Sol(rows: seq<Poly>, x: Assignment, p: int) {
    forall i :: 0 <= i < |rows| ==> Vanishes(rows[i], x, p)
  }

  /** A nonzero row without a variable: no point satisfies it. */
  ghost predicate IsConst(f: Poly) {
    f != [] && f[0].m == 0
  }

  /** The equations that do contain a variable (or nothing at all) hold at x. */
  ghost predicate VarSol(rows: seq<Poly>, x: Assignment, p: int) {
    forall i :: 0 <= i < |rows| && !IsConst(rows[i]) ==> Vanishes(rows[i], x, p)
  }

  ghost predicate Satisfiable(rows: seq<Poly>, p: int) {
    exists x: Assignment :: Point(x) && Sol(rows, x, p)
  }

  ghost predicate VarSatisfiable(rows: seq<Poly>, p: int) {
    exists x: Assignment :: Point(x) && VarSol(rows, x, p)
  }

  ghost predicate SameSolutions(a: seq<Poly>, b: seq<Poly>, p: int) {
    forall x: Assignment :: Point(x) ==> (Sol(a, x, p) <==> Sol(b, x, p))
  }

  ghost predicate AllCanon(rows: seq<Poly>, p: int) {
    forall i :: 0 <= i < |rows| ==> Canon(rows[i], p)
  }

  /** Nonempty rows with strictly decreasing leading monomials. */
  ghost predicate Triangular(rows: seq<Poly>, p: int) {
    && AllCanon(rows, p)
    && (forall i :: 0 <= i < |rows| ==> rows[i] != [])
    && (forall i, j :: 0 <= i < j < |rows| ==> rows[i][0].m > rows[j][0].m)
  }

  // ---------- single equations ----------

  lemma VanishesEmpty(x: Assignment, p: int)
    ensures Vanishes([], x, p)
  {
    CongRefl(0, p);
  }

  /** Where g vanishes, f and f - c*g vanish together. */
  lemma VanishesMinus(f: Poly, c: int, g: Poly, x: Assignment, p: int)
    requires p > 0 && Vanishes(g, x, p)
    ensures Vanishes(Minus(f, c, g, p), x, p) <==> Vanishes(f, x, p)
  {
    hide Minus, Cong, Eval;
    var h := Minus(f, c, g, p);
    EvalMinus(f, c, g, p, x);
    CongScale(c, Eval(g, x), 0, p);
    if Vanishes(f, x, p) {
      CongSub(Eval(f, x), 0, c * Eval(g, x), c * 0, p);
      CongTrans(Eval(h, x), Eval(f, x) - c * Eval(g, x), 0, p);
    }
    if Vanishes(h, x, p) {
      CongSym(Eval(h, x), Eval(f, x) - c * Eval(g, x), p);
      CongTrans(Eval(f, x) - c * Eval(g, x), Eval(h, x), 0, p);
      CongAdd(Eval(f, x) - c * Eval(g, x), 0, c * Eval(g, x), c * 0, p);
    }
  }

  lemma BelowZero(f: Poly, p: int)
    requires Canon(f, p) && Below(f, 0)
    ensures f == []
  {
    if f != [] {
      CanonTail(f, p);
    }
  }

  /** A nonzero constant vanishes at no point. */
  lemma ConstNeverVanishes(f: Poly, x: Assignment, p: int)
    requires Canon(f, p) && IsConst(f) && Point(x)
    ensures !Vanishes(f, x, p)
  {
    CanonTail(f, p);
    BelowZero(f[1..], p);
    assert Eval(f, x) == f[0].c;
    if Vanishes(f, x, p) {
      CongUnique(f[0].c, 0, p);
    }
  }

  // ---------- solving a triangular system ----------

  ghost function With(x: Assignment, m: int, v: int): Assignment {
    k => if k == m then v else x(k)
  }

  lemma {:induction false} EvalUnchanged(f: Poly, x: Assignment, m: int, v: int)
    requires Below(f, m)
    ensures Eval(f, With(x, m, v)) == Eval(f, x)
  {
    if f != [] {
      assert Below(f[1..], m);
      EvalUnchanged(f[1..], x, m, v);
    }
  }

  /** The leading variable can always be given the value that makes the row vanish. */
  lemma LeadSolve(f: Poly, x: Assignment, p: int) returns (v: int)
    requires IsPrime(p) && Canon(f, p) && f != []
    ensures Vanishes(f, With(x, f[0].m, v), p)
  {
    CanonTail(f, p);
    var rest := Eval(f[1..], x);
    var inv := InverseExists(f[0].c, p);
    v := -(inv * rest);
    EvalUnchanged(f[1..], x, f[0].m, v);
    var y := With(x, f[0].m, v);
    assert Eval(f, y) == f[0].c * v + rest;
    LeadSolveValue(f[0].c, inv, rest, p);
  }

  lemma LeadSolveValue(a: int, inv: int, rest: int, p: int)
    requires Cong(inv * a, 1, p)
    ensures Cong(a * -(inv * rest) + rest, 0, p)
  {
    CongScale(-rest, inv * a, 1, p);
    assert -rest * (inv * a) == a * -(inv * rest);
    CongRefl(rest, p);
    CongAdd(-rest * (inv * a), -rest * 1, rest, rest, p);
  }

  /** A triangular system whose rows all contain a variable has a solution. */
  lemma {:induction false} TriangularSolve(rows: seq<Poly>, p: int) returns (x: Assignment)
    requires IsPrime(p) && Triangular(rows, p)
    ensures Point(x) && VarSol(rows, x, p)
  {
    hide Cong, IsPrime, Canon, Eval;
    if rows == [] {
      x := k => if k == 0 then 1 else 0;
    } else {
      var f := rows[0];
      TriangularTail(rows, p);
      var y := TriangularSolve(rows[1..], p);
      if f[0].m == 0 {
        x := y;
        forall i | 0 <= i < |rows| && !IsConst(rows[i])
          ensures Vanishes(rows[i], x, p)
        {
          assert rows[i] == rows[1..][i - 1];
        }
      } else {
        var v := LeadSolve(f, y, p);
        x := With(y, f[0].m, v);
        forall i | 0 <= i < |rows| && !IsConst(rows[i])
          ensures Vanishes(rows[i], x, p)
        {
          if i > 0 {
            assert rows[i] == rows[1..][i - 1];
            EvalUnchanged(rows[i], y, f[0].m, v);
          }
        }
      }
    }
  }

  lemma TriangularTail(rows: seq<Poly>, p: int)
    requires Triangular(rows, p) && rows != []
    ensures Triangular(rows[1..], p)
    ensures Canon(rows[0], p) && rows[0] != []
    ensures forall i :: 1 <= i < |rows| ==> Below(rows[i], rows[0][0].m)
  {
    forall i | 1 <= i < |rows|
      ensures Below(rows[i], rows[0][0].m)
    {
      BelowHead(rows[i], rows[0][0].m, p);
    }
  }

  // ---------- elimination, one slot at a time ----------

  ghost predicate Equivalent(rows: seq<Poly>, todo: seq<Poly>, done: seq<Poly>, p: int) {
    && (forall x: Assignment :: Point(x) ==>
          (Sol(rows, x, p) <==> Sol(todo, x, p) && Sol(done, x, p)))
    && (forall x: Assignment :: Point(x) ==>
          (VarSol(rows, x, p) <==> VarSol(todo, x, p) && VarSol(done, x, p)))
  }

  /** `todo` and `done` together say what `rows` says; slots before k are already free of
      the last pivot's leading monomial and no slot goes beyond it. */
  ghost predicate Progress(rows: seq<Poly>, todo: seq<Poly>, done: seq<Poly>, k: nat, p: int) {
    && AllCanon(todo, p) && Triangular(done, p) && done != []
    && Equivalent(rows, todo, done, p)
    && (forall i :: 0 <= i < |todo| ==> Below(todo[i], done[|done| - 1][0].m + if i < k then 0 else 1))
  }

  lemma SolSplit(rows: seq<Poly>, k: nat, f: Poly, x: Assignment, p: int)
    requires k < |rows|
    ensures Sol(rows[k := f], x, p) <==> Vanishes(f, x, p) && Sol(rows[k := []], x, p)
    ensures VarSol(rows[k := f], x, p) <==> (IsConst(f) || Vanishes(f, x, p)) && VarSol(rows[k := []], x, p)
  {
    hide Vanishes, IsConst;
    VanishesEmpty(x, p);
    var a, b := rows[k := f], rows[k := []];
    assert a[k] == f && b[k] == [];
    assert forall i :: 0 <= i < |rows| && i != k ==> a[i] == b[i];
  }

  lemma SolSnoc(rows: seq<Poly>, g: Poly, x: Assignment, p: int)
    ensures Sol(rows + [g], x, p) <==> Sol(rows, x, p) && Vanishes(g, x, p)
    ensures VarSol(rows + [g], x, p) <==> VarSol(rows, x, p) && (IsConst(g) || Vanishes(g, x, p))
  {
    hide Vanishes, IsConst;
    var a := rows + [g];
    assert a[|rows|] == g && forall i :: 0 <= i < |rows| ==> a[i] == rows[i];
  }

  lemma MoveEquivalent(rows: seq<Poly>, todo: seq<Poly>, done: seq<Poly>, pos: nat, p: int)
    requires pos < |todo| && Equivalent(rows, todo, done, p)
    ensures Equivalent(rows, todo[pos := []], done + [todo[pos]], p)
  {
    hide Sol, VarSol, Vanishes, IsConst;
    assert todo[pos := todo[pos]] == todo;
    forall x: Assignment | Point(x)
      ensures Sol(rows, x, p) <==> Sol(todo[pos := []], x, p) && Sol(done + [todo[pos]], x, p)
      ensures VarSol(rows, x, p) <==> VarSol(todo[pos := []], x, p) && VarSol(done + [todo[pos]], x, p)
    {
      SolSplit(todo, pos, todo[pos], x, p);
      SolSnoc(done, todo[pos], x, p);
    }
  }

  /** The pivot row, the one with the largest leading monomial, moves to `done`. */
  lemma MovePivot(rows: seq<Poly>, todo: seq<Poly>, done: seq<Poly>, pos: nat, p: int)
    requires pos < |todo| && todo[pos] != [] && AllCanon(todo, p) && Triangular(done, p)
    requires Equivalent(rows, todo, done, p)
    requires done != [] ==> Below(todo[pos], done[|done| - 1][0].m)
    requires forall i :: 0 <= i < |todo| && todo[i] != [] ==> todo[i][0].m <= todo[pos][0].m
    ensures Progress(rows, todo[pos := []], done + [todo[pos]], 0, p)
  {
    hide Canon, Equivalent;
    var todo', done' := todo[pos := []], done + [todo[pos]];
    MoveEquivalent(rows, todo, done, pos, p);
    EmptyCanon(p);
    forall i | 0 <= i < |todo'|
      ensures Below(todo'[i], todo[pos][0].m + 1)
    {
      if todo'[i] != [] {
        BelowHead(todo'[i], todo[pos][0].m + 1, p);
      }
    }
  }

  lemma EmptyCanon(p: int)
    ensures Canon([], p)
  {
  }

  lemma SkipSlot(rows: seq<Poly>, todo: seq<Poly>, done: seq<Poly>, k: nat, p: int)
    requires Progress(rows, todo, done, k, p) && k < |todo|
    requires todo[k] != [] ==> todo[k][0].m != done[|done| - 1][0].m
    ensures Progress(rows, todo, done, k + 1, p)
  {
    hide Canon, Equivalent;
    if todo[k] != [] {
      BelowHead(todo[k], done[|done| - 1][0].m, p);
    }
  }

  lemma ReduceEquivalent(rows: seq<Poly>, todo: seq<Poly>, done: seq<Poly>, k: nat, c: int, p: int)
    requires p > 0 && k < |todo| && done != [] && todo[k] != [] && done[|done| - 1] != []
    requires Equivalent(rows, todo, done, p)
    requires todo[k][0].m == done[|done| - 1][0].m
    requires var h := Minus(todo[k], c, done[|done| - 1], p);
      !IsConst(h) && (IsConst(todo[k]) ==> h == [])
    ensures Equivalent(rows, todo[k := Minus(todo[k], c, done[|done| - 1], p)], done, p)
  {
    hide Sol, VarSol, Vanishes, Minus;
    var f, g := todo[k], done[|done| - 1];
    var h := Minus(f, c, g, p);
    var front := done[..|done| - 1];
    assert done == front + [g] && todo[k := f] == todo;
    forall x: Assignment | Point(x)
      ensures Sol(rows, x, p) <==> Sol(todo[k := h], x, p) && Sol(done, x, p)
      ensures VarSol(rows, x, p) <==> VarSol(todo[k := h], x, p) && VarSol(done, x, p)
    {
      SolSplit(todo, k, f, x, p);
      SolSplit(todo, k, h, x, p);
      SolSnoc(front, g, x, p);
      VanishesEmpty(x, p);
      if Vanishes(g, x, p) {
        VanishesMinus(f, c, g, x, p);
      }
    }
  }

  /** A row with the pivot's leading monomial is replaced by its reduction. */
  lemma ReduceSlot(rows: seq<Poly>, todo: seq<Poly>, done: seq<Poly>, k: nat, c: int, p: int)
    requires IsPrime(p) && 0 < c < p && Progress(rows, todo, done, k, p) && k < |todo|
    requires todo[k] != [] && todo[k][0].m == done[|done| - 1][0].m
    requires Cong(c * done[|done| - 1][0].c, todo[k][0].c, p)
    ensures var h := Minus(todo[k], c, done[|done| - 1], p);
      && Canon(h, p)
      && (!IsConst(h) ==> Progress(rows, todo[k := h], done, k + 1, p))
      && (IsConst(h) ==> !VarSatisfiable(rows, p))
  {
    hide Canon, Equivalent, IsPrime, Cong, Minus;
    var f, g := todo[k], done[|done| - 1];
    MinusCancels(f, c, g, p);
    var h := Minus(f, c, g, p);
    if IsConst(f) {
      BelowZero(h, p);
    }
    if IsConst(h) {
      ConstMeansUnsolvable(rows, todo, done, k, c, p);
    } else {
      ReduceEquivalent(rows, todo, done, k, c, p);
    }
  }

  lemma ConstMeansUnsolvable(rows: seq<Poly>, todo: seq<Poly>, done: seq<Poly>, k: nat, c: int, p: int)
    requires p > 0 && k < |todo| && done != [] && todo[k] != [] && done[|done| - 1] != []
    requires Equivalent(rows, todo, done, p) && todo[k][0].m == done[|done| - 1][0].m
    requires var h := Minus(todo[k], c, done[|done| - 1], p); Canon(h, p) && IsConst(h)
    requires !IsConst(todo[k])
    ensures !VarSatisfiable(rows, p)
  {
    hide Sol, Vanishes, Minus;
    var f, g := todo[k], done[|done| - 1];
    var h := Minus(f, c, g, p);
    forall x: Assignment | Point(x)
      ensures !VarSol(rows, x, p)
    {
      ConstNeverVanishes(h, x, p);
      if Vanishes(g, x, p) {
        VanishesMinus(f, c, g, x, p);
      }
    }
  }

  /** Between two pivots: every remaining row is below the last pivot. */
  ghost predicate Between(rows: seq<Poly>, todo: seq<Poly>, done: seq<Poly>, p: int) {
    && AllCanon(todo, p) && Triangular(done, p) && Equivalent(rows, todo, done, p)
    && (done != [] ==> forall i :: 0 <= i < |todo| ==> Below(todo[i], done[|done| - 1][0].m))
  }

  lemma BetweenStart(rows: seq<Poly>, p: int)
    requires AllCanon(rows, p)
    ensures Between(rows, rows, [], p)
  {
  }

  lemma ProgressEnd(rows: seq<Poly>, todo: seq<Poly>, done: seq<Poly>, p: int)
    requires Progress(rows, todo, done, |todo|, p)
    ensures Between(rows, todo, done, p)
  {
  }

  function CountNonzero(rows: seq<Poly>): nat {
    if rows == [] then 0 else CountNonzero(rows[..|rows| - 1]) + if rows[|rows| - 1] == [] then 0 else 1
  }

  lemma {:induction false} CountBound(rows: seq<Poly>)
    ensures CountNonzero(rows) <= |rows|
  {
    if rows != [] {
      CountBound(rows[..|rows| - 1]);
    }
  }

  lemma {:induction false} CountUpdate(rows: seq<Poly>, k: nat, f: Poly)
    requires k < |rows|
    ensures CountNonzero(rows[k := f]) ==
      CountNonzero(rows) - (if rows[k] == [] then 0 else 1) + (if f == [] then 0 else 1)
  {
    var last := |rows| - 1;
    if k == last {
      assert rows[k := f][..last] == rows[..last];
    } else {
      CountUpdate(rows[..last], k, f);
      assert rows[k := f][..last] == rows[..last][k := f];
    }
  }

  lemma {:induction false} CountZero(rows: seq<Poly>)
    requires CountNonzero(rows) == 0
    ensures forall i :: 0 <= i < |rows| ==> rows[i] == []
  {
    if rows != [] {
      CountZero(rows[..|rows| - 1]);
      assert forall i :: 0 <= i < |rows| - 1 ==> rows[i] == rows[..|rows| - 1][i];
    }
  }

  ghost predicate AllConst(rows: seq<Poly>) {
    forall i :: 0 <= i < |rows| && rows[i] != [] ==> IsConst(rows[i])
  }

  /** The end of a run: nothing is left to reduce. */
  lemma AllReduced(rows: seq<Poly>, todo: seq<Poly>, done: seq<Poly>, p: int)
    requires IsPrime(p) && Between(rows, todo, done, p)
    requires forall i :: 0 <= i < |todo| ==> todo[i] == []
    ensures SameSolutions(rows, done, p)
    ensures VarSatisfiable(rows, p)
  {
    hide Sol, VarSol;
    forall x: Assignment
      ensures Sol(todo, x, p) && VarSol(todo, x, p)
    {
      EmptyRowsVanish(todo, x, p);
    }
    var x := TriangularSolve(done, p);
    assert Point(x) && VarSol(rows, x, p);
  }

  lemma EmptyRowsVanish(rows: seq<Poly>, x: Assignment, p: int)
    requires forall i :: 0 <= i < |rows| ==> rows[i] == []
    ensures Sol(rows, x, p) && VarSol(rows, x, p)
  {
    VanishesEmpty(x, p);
  }
}
