/** Which input row an output row of the elimination comes from. */
module RowOrigin {
  import opened Basics
  import opened Modular
  import opened SparsePoly
  import opened Systems

  /** f and g take the same value wherever all rows vanish. */
  ghost predicate AgreeWhere(f: Poly, g: Poly, rows: seq<Poly>, p: int) {
    forall x: Assignment :: Sol(rows, x, p) ==> Cong(Eval(f, x), Eval(g, x), p)
  }

  /** Row k is input row pos[k], freed of what it shares with the rows before it. */
  ghost predicate Picked(rows: seq<Poly>, done: seq<Poly>, pos: seq<nat>, p: int) {
    && |pos| == |done| && Distinct(pos)
    && forall k :: 0 <= k < |done| ==> pos[k] < |rows| && AgreeWhere(done[k], rows[pos[k]], done[..k], p)
  }

  /** The slot of a picked row is empty, any other holds its row, freed of the rows picked. */
  ghost predicate Left(rows: seq<Poly>, todo: seq<Poly>, done: seq<Poly>, pos: seq<nat>, p: int) {
    && |todo| == |rows|
    && (forall k :: 0 <= k < |pos| ==> pos[k] < |todo| && todo[pos[k]] == [])
    && forall i: nat :: i < |rows| && i !in pos ==> AgreeWhere(todo[i], rows[i], done, p)
  }

  ghost predicate Tracked(rows: seq<Poly>, todo: seq<Poly>, done: seq<Poly>, pos: seq<nat>, p: int) {
    Picked(rows, done, pos, p) && Left(rows, todo, done, pos, p)
  }

  /** Wherever the rows of a vanish, those of b do. */
  ghost predicate Entails(a: seq<Poly>, b: seq<Poly>, p: int) {
    forall x: Assignment :: Sol(a, x, p) ==> Sol(b, x, p)
  }

  lemma AgreeRefl(f: Poly, rows: seq<Poly>, p: int)
    ensures AgreeWhere(f, f, rows, p)
  {
    hide Cong, Sol;
    forall x: Assignment | Sol(rows, x, p)
      ensures Cong(Eval(f, x), Eval(f, x), p)
    {
      CongRefl(Eval(f, x), p);
    }
  }

  lemma AgreeTrans(f: Poly, g: Poly, h: Poly, a: seq<Poly>, b: seq<Poly>, rows: seq<Poly>, p: int)
    requires AgreeWhere(f, g, a, p) && AgreeWhere(g, h, b, p)
    requires Entails(rows, a, p) && Entails(rows, b, p)
    ensures AgreeWhere(f, h, rows, p)
  {
    hide Cong, Sol, Eval;
    forall x: Assignment | Sol(rows, x, p)
      ensures Cong(Eval(f, x), Eval(h, x), p)
    {
      CongTrans(Eval(f, x), Eval(g, x), Eval(h, x), p);
    }
  }

  lemma SubsetEntails(a: seq<Poly>, b: seq<Poly>, p: int)
    requires forall i :: 0 <= i < |b| ==> b[i] in a
    ensures Entails(a, b, p)
  {
    hide Vanishes;
    forall x: Assignment | Sol(a, x, p)
      ensures Sol(b, x, p)
    {
      forall i | 0 <= i < |b|
        ensures Vanishes(b[i], x, p)
      {
        var j :| 0 <= j < |a| && a[j] == b[i];
      }
    }
  }

  lemma AgreeMore(f: Poly, g: Poly, a: seq<Poly>, b: seq<Poly>, p: int)
    requires AgreeWhere(f, g, a, p) && forall i :: 0 <= i < |a| ==> a[i] in b
    ensures AgreeWhere(f, g, b, p)
  {
    SubsetEntails(b, a, p);
    hide Sol, Cong, Eval;
  }

  /** Subtracting a multiple of one of the rows changes nothing where they vanish. */
  lemma MinusAgrees(f: Poly, c: int, g: Poly, rows: seq<Poly>, p: int)
    requires p > 0 && g in rows
    ensures AgreeWhere(Minus(f, c, g, p), f, rows, p)
  {
    hide Minus, Cong, Eval;
    var i :| 0 <= i < |rows| && rows[i] == g;
    forall x: Assignment | Sol(rows, x, p)
      ensures Cong(Eval(Minus(f, c, g, p), x), Eval(f, x), p)
    {
      assert Vanishes(rows[i], x, p);
      EvalMinus(f, c, g, p, x);
      CongScale(c, Eval(g, x), 0, p);
      CongRefl(Eval(f, x), p);
      CongSub(Eval(f, x), Eval(f, x), c * Eval(g, x), c * 0, p);
      CongTrans(Eval(Minus(f, c, g, p), x), Eval(f, x) - c * Eval(g, x), Eval(f, x), p);
    }
  }

  // ---------- the elimination ----------

  lemma TrackedStart(rows: seq<Poly>, p: int)
    ensures Tracked(rows, rows, [], [], p)
  {
    forall i: nat | i < |rows|
      ensures AgreeWhere(rows[i], rows[i], [], p)
    {
      AgreeRefl(rows[i], [], p);
    }
    hide AgreeWhere;
  }

  lemma TrackedMove(rows: seq<Poly>, todo: seq<Poly>, done: seq<Poly>, pos: seq<nat>, i: nat, p: int)
    requires Tracked(rows, todo, done, pos, p) && i < |todo| && todo[i] != []
    ensures Tracked(rows, todo[i := []], done + [todo[i]], pos + [i], p)
  {
    hide AgreeWhere;
    var done', pos' := done + [todo[i]], pos + [i];
    assert i !in pos;
    forall k | 0 <= k < |done'|
      ensures pos'[k] < |rows| && AgreeWhere(done'[k], rows[pos'[k]], done'[..k], p)
    {
      assert done'[..k] == done[..k];
      assert k == |done| ==> done'[..k] == done;
    }
    forall j: nat | j < |rows| && j !in pos'
      ensures AgreeWhere(todo[i := []][j], rows[j], done', p)
    {
      assert j != i by { assert pos'[|pos|] == i; }
      assert j !in pos by { assert forall k :: 0 <= k < |pos| ==> pos'[k] == pos[k]; }
      AgreeMore(todo[j], rows[j], done, done', p);
    }
  }

  lemma TrackedReduce(rows: seq<Poly>, todo: seq<Poly>, done: seq<Poly>, pos: seq<nat>, i: nat, c: int, p: int)
    requires p > 0 && Tracked(rows, todo, done, pos, p) && i < |todo| && todo[i] != [] && done != []
    ensures Tracked(rows, todo[i := Minus(todo[i], c, done[|done| - 1], p)], done, pos, p)
  {
    hide AgreeWhere, Minus, Entails;
    assert i !in pos;
    var g := done[|done| - 1];
    var h := Minus(todo[i], c, g, p);
    MinusAgrees(todo[i], c, g, done, p);
    SubsetEntails(done, done, p);
    AgreeTrans(h, todo[i], rows[i], done, done, done, p);
  }

  /** When nothing is left, the rows picked imply all rows. */
  lemma TrackedEnd(rows: seq<Poly>, todo: seq<Poly>, done: seq<Poly>, pos: seq<nat>, p: int)
    requires Tracked(rows, todo, done, pos, p) && forall i :: 0 <= i < |todo| ==> todo[i] == []
    ensures Picked(rows, done, pos, p) && Entails(done, rows, p)
  {
    hide Cong;
    forall x: Assignment, i | Sol(done, x, p) && 0 <= i < |rows|
      ensures Vanishes(rows[i], x, p)
    {
      hide Eval, Cong;
      var n: nat := i;
      if n in pos {
        var k :| 0 <= k < |pos| && pos[k] == n;
        PickedVanishes(rows, done, pos, k, x, p);
      } else {
        assert AgreeWhere(todo[n], rows[n], done, p);
        VanishesEmpty(x, p);
        FromZero([], rows[n], x, p);
      }
    }
  }

  lemma FromZero(f: Poly, g: Poly, x: Assignment, p: int)
    requires Cong(Eval(f, x), Eval(g, x), p) && Vanishes(f, x, p)
    ensures Vanishes(g, x, p)
  {
    hide Eval, Cong;
    CongSym(Eval(f, x), Eval(g, x), p);
    CongTrans(Eval(g, x), Eval(f, x), 0, p);
  }

  lemma PickedVanishes(rows: seq<Poly>, done: seq<Poly>, pos: seq<nat>, k: nat, x: Assignment, p: int)
    requires Picked(rows, done, pos, p) && k < |done| && Sol(done, x, p)
    ensures pos[k] < |rows| && Vanishes(rows[pos[k]], x, p)
  {
    hide Eval, Cong, Vanishes;
    assert AgreeWhere(done[k], rows[pos[k]], done[..k], p);
    assert Sol(done[..k], x, p);
    FromZero(done[k], rows[pos[k]], x, p);
  }
}
