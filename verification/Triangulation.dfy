/** Elimination on arrays of coefficient lists: fmaxpos and triangulate of calc.c. */
module Triangulation {
  import opened Modular
  import opened InvFF
  import opened FieldFF
  import opened SparsePoly
  import opened PolyList
  import opened Systems
  import opened RowOrigin
  import R = ReduceD

  type Nodes = seq<PolyNode>

  ghost function NodesOf(ls: seq<Nodes>): (ns: set<PolyNode>)
    ensures forall i, n :: 0 <= i < |ls| && n in ls[i] ==> n in ns
    ensures forall n :: n in ns ==> exists i :: 0 <= i < |ls| && n in ls[i]
  {
    set i, n | 0 <= i < |ls| && n in ls[i] :: n
  }

  /** The first |ps| slots of the array hold the lists `ls`, whose values are `ps`. */
  ghost predicate Holds(a: array<PolyNode?>, ls: seq<Nodes>, ps: seq<Poly>)
    reads a, NodesOf(ls)
  {
    && |ls| == |ps| <= a.Length
    && forall i :: 0 <= i < |ls| ==> IsList(a[i], ls[i]) && TermsOf(ls[i]) == ps[i]
  }

  ghost predicate Separate(ls: seq<Nodes>) {
    forall i, j :: 0 <= i < |ls| && 0 <= j < |ls| && i != j ==> Disjoint(ls[i], ls[j])
  }

  /** The slot with the largest leading monomial, the first one if there are several. */
  ghost predicate IsMaxPos(ps: seq<Poly>, pos: int) {
    if pos == -1 then forall i :: 0 <= i < |ps| ==> ps[i] == []
    else
      && 0 <= pos < |ps| && ps[pos] != []
      && (forall i :: 0 <= i < |ps| && ps[i] != [] ==> ps[i][0].m <= ps[pos][0].m)
      && (forall i :: 0 <= i < pos && ps[i] != [] ==> ps[i][0].m < ps[pos][0].m)
  }

  lemma HoldsAt(a: array<PolyNode?>, ls: seq<Nodes>, ps: seq<Poly>, i: nat)
    requires Holds(a, ls, ps) && i < |ls|
    ensures |ls| == |ps| <= a.Length
    ensures IsList(a[i], ls[i]) && TermsOf(ls[i]) == ps[i]
    ensures a[i] == null <==> ps[i] == []
    ensures a[i] == null <==> ls[i] == []
    ensures a[i] != null ==> a[i] == ls[i][0] && a[i] in ls[i] && ps[i][0] == Term(a[i].c, a[i].m)
  {
  }

  /** Both arrays together: every list is separate from every other. */
  ghost predicate Owns(inn: array<PolyNode?>, done: array<PolyNode?>, ls: seq<Nodes>, ds: seq<Nodes>,
                       ps: seq<Poly>, qs: seq<Poly>)
    reads inn, done, NodesOf(ls), NodesOf(ds)
  {
    && inn != done && Separate(ls + ds)
    && Holds(inn, ls, ps) && Holds(done, ds, qs)
  }

  method FMaxPos(inn: array<PolyNode?>, size: nat, p: int, ghost done: array<PolyNode?>,
                 ghost ls: seq<Nodes>, ghost ds: seq<Nodes>, ghost ps: seq<Poly>, ghost qs: seq<Poly>)
      returns (pos: int)
    requires Owns(inn, done, ls, ds, ps, qs) && size == |ps| && AllCanon(ps, p)
    ensures Owns(inn, done, ls, ds, ps, qs)
    ensures IsMaxPos(ps, pos)
  {
    pos := -1;
    var mymax := -1;
    for i := 0 to size
      invariant IsMaxPos(ps[..i], pos)
      invariant mymax == if pos == -1 then -1 else ps[pos][0].m
    {
      HoldsAt(inn, ls, ps, i);
      MaxPosStep(ps, i, pos, p);
      if inn[i] == null { continue; }
      if inn[i].m > mymax {
        mymax := inn[i].m;
        pos := i;
      }
    }
    assert ps[..size] == ps;
  }

  lemma MaxPosStep(ps: seq<Poly>, i: nat, pos: int, p: int)
    requires i < |ps| && IsMaxPos(ps[..i], pos) && AllCanon(ps, p)
    ensures ps[i] == [] ==> IsMaxPos(ps[..i + 1], pos)
    ensures ps[i] != [] && pos != -1 && ps[i][0].m <= ps[pos][0].m ==> IsMaxPos(ps[..i + 1], pos)
    ensures ps[i] != [] && (pos == -1 || ps[i][0].m > ps[pos][0].m) ==> IsMaxPos(ps[..i + 1], i)
    ensures ps[i] != [] ==> ps[i][0].m >= 0
  {
    assert ps[..i + 1] == ps[..i] + [ps[i]];
    assert forall j :: 0 <= j < i ==> ps[..i][j] == ps[j] == ps[..i + 1][j];
  }

  // ---------- heap bookkeeping ----------

  lemma EmptyTerms()
    ensures TermsOf([]) == []
  {
  }

  lemma SeparatePair(ls: seq<Nodes>, ds: seq<Nodes>, i: nat, d: nat)
    requires Separate(ls + ds) && i < |ls| && d < |ds|
    ensures Disjoint(ls[i], ds[d])
  {
    assert (ls + ds)[i] == ls[i] && (ls + ds)[|ls| + d] == ds[d];
  }

  /** Replacing a list by one made of its own and of new nodes keeps all lists separate. */
  lemma SeparateReplace(ls: seq<Nodes>, k: nat, hs: Nodes)
    requires k < |ls| && Separate(ls)
    requires forall j, n :: 0 <= j < |ls| && j != k && n in ls[j] ==> n !in hs
    ensures Separate(ls[k := hs])
  {
    var m := ls[k := hs];
    forall i, j | 0 <= i < |m| && 0 <= j < |m| && i != j
      ensures Disjoint(m[i], m[j])
    {
      if i == k {
        assert m[i] == hs && m[j] == ls[j];
      } else if j == k {
        assert m[j] == hs && m[i] == ls[i];
      } else {
        assert m[i] == ls[i] && m[j] == ls[j];
      }
    }
  }

  /** Moving list k to the end of the other array keeps all lists separate. */
  lemma SeparateMove(ls: seq<Nodes>, ds: seq<Nodes>, k: nat)
    requires k < |ls| && Separate(ls + ds)
    ensures Separate(ls[k := []] + (ds + [ls[k]]))
  {
    var a, b := ls + ds, ls[k := []] + (ds + [ls[k]]);
    assert |b| == |a| + 1;
    forall i, j | 0 <= i < |b| && 0 <= j < |b| && i != j
      ensures Disjoint(b[i], b[j])
    {
      var i' := if i == |a| then k else i;
      var j' := if j == |a| then k else j;
      assert b[i] == [] || b[i] == a[i'];
      assert b[j] == [] || b[j] == a[j'];
      if b[i] != [] && b[j] != [] {
        assert i' != j';
      }
    }
  }

  /** Slot k gets the list `l`; the other slots are as they were. */
  lemma HoldsPut(a: array<PolyNode?>, ls: seq<Nodes>, ps: seq<Poly>, k: nat, l: Nodes, f: Poly)
    requires k < |ls| == |ps| <= a.Length
    requires forall i :: 0 <= i < |ls| && i != k ==> IsList(a[i], ls[i]) && TermsOf(ls[i]) == ps[i]
    requires IsList(a[k], l) && TermsOf(l) == f
    ensures Holds(a, ls[k := l], ps[k := f])
  {
    hide IsList, TermsOf;
  }

  lemma HoldsSnoc(a: array<PolyNode?>, ls: seq<Nodes>, ps: seq<Poly>, l: Nodes, f: Poly)
    requires |ls| == |ps| < a.Length
    requires forall i :: 0 <= i < |ls| ==> IsList(a[i], ls[i]) && TermsOf(ls[i]) == ps[i]
    requires IsList(a[|ls|], l) && TermsOf(l) == f
    ensures Holds(a, ls + [l], ps + [f])
  {
    hide IsList, TermsOf;
  }

  /** The pivot's list moves from `inn` to `done`. */
  method TakePivot(inn: array<PolyNode?>, done: array<PolyNode?>, maxpos: nat, donep: nat,
                   ghost ls: seq<Nodes>, ghost ds: seq<Nodes>, ghost ps: seq<Poly>, ghost qs: seq<Poly>)
    requires Owns(inn, done, ls, ds, ps, qs)
    requires maxpos < |ls| && donep == |ds| == |qs| < done.Length
    modifies inn, done
    ensures Owns(inn, done, ls[maxpos := []], ds + [ls[maxpos]], ps[maxpos := []], qs + [ps[maxpos]])
    ensures done[donep] == old(inn[maxpos])
  {
    hide IsList, TermsOf, Separate;
    SeparateMove(ls, ds, maxpos);
    EmptyList();
    assert TermsOf([]) == [] by { EmptyTerms(); }
    var g := inn[maxpos];
    inn[maxpos] := null;
    done[donep] := g;
    HoldsPut(inn, ls, ps, maxpos, [], []);
    HoldsSnoc(done, ds, qs, ls[maxpos], ps[maxpos]);
  }

  lemma OwnsParts(inn: array<PolyNode?>, done: array<PolyNode?>, ls: seq<Nodes>, ds: seq<Nodes>,
                  ps: seq<Poly>, qs: seq<Poly>)
    requires Owns(inn, done, ls, ds, ps, qs)
    ensures inn != done && Separate(ls + ds) && Holds(inn, ls, ps) && Holds(done, ds, qs)
    ensures |ls| == |ps| <= inn.Length && |ds| == |qs| <= done.Length
    ensures forall i :: 0 <= i < |ls| ==> IsList(inn[i], ls[i]) && TermsOf(ls[i]) == ps[i]
    ensures forall i :: 0 <= i < |ds| ==> IsList(done[i], ds[i]) && TermsOf(ds[i]) == qs[i]
  {
    hide IsList, TermsOf, Separate;
  }

  lemma OwnsIntro(inn: array<PolyNode?>, done: array<PolyNode?>, ls: seq<Nodes>, ds: seq<Nodes>,
                  ps: seq<Poly>, qs: seq<Poly>)
    requires inn != done && Separate(ls + ds) && Holds(inn, ls, ps)
    requires |ds| == |qs| <= done.Length
    requires forall i :: 0 <= i < |ds| ==> IsList(done[i], ds[i]) && TermsOf(ds[i]) == qs[i]
    ensures Owns(inn, done, ls, ds, ps, qs)
  {
    hide IsList, TermsOf, Separate;
  }

  /** Nodes of any other list are not in list i. */
  lemma SeparateOthers(ls: seq<Nodes>, ds: seq<Nodes>, i: nat)
    requires Separate(ls + ds) && i < |ls|
    ensures forall j, n :: 0 <= j < |ls| && j != i && n in ls[j] ==> n !in ls[i]
    ensures forall j, n :: 0 <= j < |ds| && n in ds[j] ==> n !in ls[i]
  {
    var a := ls + ds;
    forall j, n | 0 <= j < |ls| && j != i && n in ls[j]
      ensures n !in ls[i]
    {
      assert a[j] == ls[j] && a[i] == ls[i] && Disjoint(a[j], a[i]);
    }
    forall j, n | 0 <= j < |ds| && n in ds[j]
      ensures n !in ls[i]
    {
      assert a[|ls| + j] == ds[j] && a[i] == ls[i] && Disjoint(a[|ls| + j], a[i]);
    }
  }

  lemma SeparatePut(ls: seq<Nodes>, ds: seq<Nodes>, i: nat, hs: Nodes)
    requires Separate(ls + ds) && i < |ls|
    requires forall j, n :: 0 <= j < |ls| && j != i && n in ls[j] ==> n !in hs
    requires forall j, n :: 0 <= j < |ds| && n in ds[j] ==> n !in hs
    ensures Separate(ls[i := hs] + ds)
  {
    hide Separate;
    var a := ls + ds;
    forall j, n | 0 <= j < |a| && j != i && n in a[j]
      ensures n !in hs
    {
      if j >= |ls| {
        assert a[j] == ds[j - |ls|];
      }
    }
    SeparateReplace(a, i, hs);
    assert a[i := hs] == ls[i := hs] + ds;
  }

  lemma CanonAt(ps: seq<Poly>, i: nat, p: int)
    requires AllCanon(ps, p) && i < |ps|
    ensures Canon(ps[i], p) && R.Nonzero(ps[i], p)
    ensures ps[i] != [] ==> 0 < ps[i][0].c < p && Rep(ps[i][0].c, p)
  {
  }

  /** The reduction, seen by lists that share no node with f. */
  method ReduceBeside(f: PolyNode?, c: int, g: PolyNode?, p: int, ghost fs: Nodes, ghost gs: Nodes,
                      ghost heads: seq<PolyNode?>, ghost others: seq<Nodes>)
      returns (h: PolyNode?, ghost hs: Nodes)
    requires Modulus(p) && Rep(c, p) && p > 0
    requires IsList(f, fs) && IsList(g, gs) && Disjoint(fs, gs)
    requires R.Nonzero(TermsOf(fs), p) && R.Nonzero(TermsOf(gs), p)
    requires |heads| == |others|
    requires forall j :: 0 <= j < |others| ==> IsList(heads[j], others[j])
    requires forall j, n :: 0 <= j < |others| && n in others[j] ==> n !in fs
    modifies fs
    ensures IsList(h, hs) && TermsOf(hs) == old(R.Reduction(TermsOf(fs), c, TermsOf(gs), p))
    ensures forall n :: n in hs ==> n in fs || fresh(n)
    ensures forall j :: 0 <= j < |others| ==>
      IsList(heads[j], others[j]) && TermsOf(others[j]) == old(TermsOf(others[j]))
  {
    hide *;
    ghost var freed;
    h, hs, freed := R.ReduceD(f, c, g, p, fs, gs);
    forall j | 0 <= j < |others|
      ensures IsList(heads[j], others[j])
      ensures TermsOf(others[j]) == old(TermsOf(others[j]))
    {
      ghost var ns := others[j];
      assert old(IsList(heads[j], ns));
      forall n | n in ns
        ensures n.next == old(n.next) && n.c == old(n.c) && n.m == old(n.m)
      {
        assert n in others[j] && n !in fs;
      }
    }
  }

  /** A row with the pivot's leading variable is reduced in place. */
  method ReduceSlotD(inn: array<PolyNode?>, done: array<PolyNode?>, i: nat, donep: nat, p: int,
                     ghost ls: seq<Nodes>, ghost ds: seq<Nodes>, ghost ps: seq<Poly>, ghost qs: seq<Poly>)
      returns (ghost hs: Nodes, ghost c: int)
    requires Modulus(p) && Owns(inn, done, ls, ds, ps, qs)
    requires AllCanon(ps, p) && AllCanon(qs, p)
    requires i < |ls| && 0 < donep == |ds| == |qs|
    requires ps[i] != [] && qs[donep - 1] != [] && ps[i][0].m == qs[donep - 1][0].m
    modifies inn, ls[i]
    ensures 0 < c < p && Cong(c * qs[donep - 1][0].c, ps[i][0].c, p)
    ensures p > 0 && Owns(inn, done, ls[i := hs], ds, ps[i := Minus(ps[i], c, qs[donep - 1], p)], qs)
    ensures forall n :: n in hs ==> n in ls[i] || fresh(n)
  {
    hide *;
    ModulusBound(p);
    OwnsParts(inn, done, ls, ds, ps, qs);
    HoldsAt(inn, ls, ps, i);
    HoldsAt(done, ds, qs, donep - 1);
    CanonAt(ps, i, p);
    CanonAt(qs, donep - 1, p);
    var f, g := inn[i], done[donep - 1];
    SeparatePair(ls, ds, i, donep - 1);
    var cc := DivFF(f.c, g.c, p);
    c := cc;
    assert c != 0;
    R.ReductionCases(ps[i], c, qs[donep - 1], p);
    var h: PolyNode?;
    ghost var others := ls[i := []] + ds;
    ghost var heads := inn[..|ls|][i := null] + done[..|ds|];
    SeparateOthers(ls, ds, i);
    EmptyList();
    h, hs := ReduceBeside(f, cc, g, p, ls[i], ds[donep - 1], heads, others);
    inn[i] := h;
    forall j | 0 <= j < |ls| && j != i
      ensures IsList(inn[j], ls[j]) && TermsOf(ls[j]) == ps[j]
    {
      assert heads[j] == inn[j] && others[j] == ls[j];
    }
    forall j | 0 <= j < |ds|
      ensures IsList(done[j], ds[j]) && TermsOf(ds[j]) == qs[j]
    {
      assert heads[|ls| + j] == done[j] && others[|ls| + j] == ds[j];
    }
    HoldsPut(inn, ls, ps, i, hs, Minus(ps[i], c, qs[donep - 1], p));
    SeparatePut(ls, ds, i, hs);
    OwnsIntro(inn, done, ls[i := hs], ds, ps[i := Minus(ps[i], c, qs[donep - 1], p)], qs);
  }

  // ---------- the elimination ----------

  /** All slots after one pivot: rows sharing the pivot's leading variable are reduced.
      Stops when a row becomes a nonzero constant. */
  method ClearPivot(inn: array<PolyNode?>, done: array<PolyNode?>, size: nat, donep: nat, inm0: nat, p: int,
                    ghost rows: seq<Poly>, ghost ls0: seq<Nodes>, ghost ds: seq<Nodes>,
                    ghost ps0: seq<Poly>, ghost qs: seq<Poly>, ghost pos: seq<nat>)
      returns (inm: nat, consistent: bool, ghost ls: seq<Nodes>, ghost ps: seq<Poly>)
    requires Modulus(p) && Owns(inn, done, ls0, ds, ps0, qs)
    requires |ls0| == |ps0| == size && 0 < donep == |ds| == |qs|
    requires Progress(rows, ps0, qs, 0, p) && CountNonzero(ps0) <= inm0
    requires Tracked(rows, ps0, qs, pos, p)
    modifies inn, NodesOf(ls0)
    ensures |ls| == |ps| == size && inm <= inm0
    ensures consistent ==> Owns(inn, done, ls, ds, ps, qs)
    ensures consistent ==> Between(rows, ps, qs, p) && CountNonzero(ps) <= inm && Tracked(rows, ps, qs, pos, p)
    ensures consistent ==> forall j, n :: 0 <= j < |ls| && n in ls[j] ==> n in NodesOf(ls0) || fresh(n)
    ensures !consistent ==> !VarSatisfiable(rows, p)
  {
    hide *;
    inm, ls, ps, consistent := inm0, ls0, ps0, true;
    for i := 0 to size
      invariant |ls| == |ps| == size && inm <= inm0
      invariant Owns(inn, done, ls, ds, ps, qs)
      invariant Progress(rows, ps, qs, i, p) && CountNonzero(ps) <= inm && Tracked(rows, ps, qs, pos, p)
      invariant forall j, n :: 0 <= j < |ls| && n in ls[j] ==> n in NodesOf(ls0) || fresh(n)
    {
      OwnsParts(inn, done, ls, ds, ps, qs);
      HoldsAt(inn, ls, ps, i);
      HoldsAt(done, ds, qs, donep - 1);
      ProgressParts(rows, ps, qs, i, p);
      if inn[i] == null || inn[i].m != done[donep - 1].m {
        SkipSlot(rows, ps, qs, i, p);
        continue;
      }
      ghost var hs, c;
      hs, c := ReduceSlotD(inn, done, i, donep, p, ls, ds, ps, qs);
      ModulusPrime(p);
      ReduceSlot(rows, ps, qs, i, c, p);
      TrackedReduce(rows, ps, qs, pos, i, c, p);
      ghost var h := Minus(ps[i], c, qs[donep - 1], p);
      CountUpdate(ps, i, h);
      ls, ps := ls[i := hs], ps[i := h];
      OwnsParts(inn, done, ls, ds, ps, qs);
      HoldsAt(inn, ls, ps, i);
      if inn[i] == null {
        ConstIs(h);
        inm := inm - 1;
      } else {
        ConstIs(h);
        if inn[i].m == 0 {
          consistent := false;
          return;
        }
      }
    }
    ProgressEnd(rows, ps, qs, p);
  }

  lemma ConstIs(f: Poly)
    ensures IsConst(f) <==> f != [] && f[0].m == 0
  {
  }

  lemma ModulusPrime(p: int)
    requires Modulus(p)
    ensures IsPrime(p) && p >= 2
  {
  }

  lemma ProgressParts(rows: seq<Poly>, todo: seq<Poly>, done: seq<Poly>, k: nat, p: int)
    requires Progress(rows, todo, done, k, p)
    ensures AllCanon(todo, p) && AllCanon(done, p) && done != [] && done[|done| - 1] != []
  {
  }

  /** The maximal row can be the next pivot. */
  lemma NextPivot(rows: seq<Poly>, todo: seq<Poly>, done: seq<Poly>, pos: int, p: int)
    requires Between(rows, todo, done, p) && IsMaxPos(todo, pos) && pos >= 0
    ensures pos < |todo| && todo[pos] != []
    ensures Progress(rows, todo[pos := []], done + [todo[pos]], 0, p)
  {
    hide Canon, Equivalent;
    MovePivot(rows, todo, done, pos, p);
  }

  lemma NoPivot(todo: seq<Poly>, pos: int)
    requires IsMaxPos(todo, pos) && pos < 0
    ensures forall i :: 0 <= i < |todo| ==> todo[i] == []
  {
  }

  /** The first pivot decides whether any row contains a variable. */
  lemma FirstPivot(rows: seq<Poly>, pos: int, p: int)
    requires AllCanon(rows, p) && IsMaxPos(rows, pos) && exists i :: 0 <= i < |rows| && rows[i] != []
    ensures 0 <= pos < |rows| && rows[pos] != []
    ensures AllConst(rows) <==> rows[pos][0].m == 0
  {
    forall i | 0 <= i < |rows| && rows[i] != []
      ensures rows[i][0].m >= 0
    {
      CanonTail(rows[i], p);
    }
  }

  lemma OwnsStart(inn: array<PolyNode?>, done: array<PolyNode?>, ls: seq<Nodes>, rows: seq<Poly>)
    requires inn != done && Separate(ls) && Holds(inn, ls, rows)
    ensures Owns(inn, done, ls, [], rows, [])
  {
    assert ls + [] == ls;
  }

  lemma OwnsDone(inn: array<PolyNode?>, done: array<PolyNode?>, ls: seq<Nodes>, ds: seq<Nodes>,
                 ps: seq<Poly>, qs: seq<Poly>)
    requires Owns(inn, done, ls, ds, ps, qs)
    ensures Separate(ds) && Holds(done, ds, qs)
  {
    var a := ls + ds;
    forall i, j | 0 <= i < |ds| && 0 <= j < |ds| && i != j
      ensures Disjoint(ds[i], ds[j])
    {
      assert a[|ls| + i] == ds[i] && a[|ls| + j] == ds[j];
    }
  }

  /** Reduce the rows in `inn` to triangular form in `done`.  The result is 0 exactly when no
      row has a variable or the rows that have one contradict each other; otherwise the n rows
      of `done` have strictly decreasing leading variables and the solutions of the input, and
      row k is input row pos[k], freed of the rows before it. */
  method Triangulate(inn: array<PolyNode?>, done: array<PolyNode?>, size: nat, p: int,
                     ghost ls0: seq<Nodes>, ghost rows: seq<Poly>)
      returns (n: nat, ghost ds: seq<Nodes>, ghost qs: seq<Poly>, ghost pos: seq<nat>)
    requires Modulus(p) && inn != done && size <= done.Length
    requires Holds(inn, ls0, rows) && |rows| == size && Separate(ls0)
    requires AllCanon(rows, p) && exists i :: 0 <= i < |rows| && rows[i] != []
    modifies inn, done, NodesOf(ls0)
    ensures n == 0 <==> AllConst(rows) || !VarSatisfiable(rows, p)
    ensures n > 0 ==> n == |ds| == |qs| && Holds(done, ds, qs) && Separate(ds)
    ensures n > 0 ==> Triangular(qs, p) && SameSolutions(rows, qs, p)
    ensures n > 0 ==> Picked(rows, qs, pos, p) && Entails(qs, rows, p)
    ensures n > 0 ==> forall j, x :: 0 <= j < |ds| && x in ds[j] ==> x in NodesOf(ls0) || fresh(x)
  {
    hide *;
    ModulusPrime(p);
    HoldsLength(inn, ls0, rows);
    var inm := size;
    n, ds, qs, pos := 0, [], [], [];
    OwnsStart(inn, done, ls0, rows);
    var maxpos := FMaxPos(inn, size, p, done, ls0, [], rows, []);
    FirstPivot(rows, maxpos, p);
    OwnsParts(inn, done, ls0, [], rows, []);
    HoldsAt(inn, ls0, rows, maxpos);
    if inn[maxpos].m == 0 {
      return;
    }
    assert !AllConst(rows);
    ghost var ls, ps := ls0, rows;
    BetweenStart(rows, p);
    TrackedStart(rows, p);
    CountBound(rows);
    while inm > 0
      invariant |ls| == |ps| == size && n == |ds| == |qs| && n + inm <= size
      invariant n == 0 ==> inm > 0 && maxpos >= 0
      invariant Owns(inn, done, ls, ds, ps, qs)
      invariant Between(rows, ps, qs, p) && CountNonzero(ps) <= inm && Tracked(rows, ps, qs, pos, p)
      invariant inm > 0 ==> IsMaxPos(ps, maxpos)
      invariant forall j, x :: 0 <= j < |ls| && x in ls[j] ==> x in NodesOf(ls0) || fresh(x)
      invariant forall j, x :: 0 <= j < |ds| && x in ds[j] ==> x in NodesOf(ls0) || fresh(x)
      decreases inm
    {
      if maxpos < 0 {
        NoPivot(ps, maxpos);
        break;
      }
      NextPivot(rows, ps, qs, maxpos, p);
      TrackedMove(rows, ps, qs, pos, maxpos, p);
      CountUpdate(ps, maxpos, []);
      TakePivot(inn, done, maxpos, n, ls, ds, ps, qs);
      EmptiedNodes(ls, ls[maxpos := []], maxpos);
      ls, ds, ps, qs := ls[maxpos := []], ds + [ls[maxpos]], ps[maxpos := []], qs + [ps[maxpos]];
      pos := pos + [maxpos];
      n, inm := n + 1, inm - 1;
      var consistent;
      ghost var before := NodesOf(ls);
      assert forall x :: x in before ==> x in NodesOf(ls0) || fresh(x);
      inm, consistent, ls, ps := ClearPivot(inn, done, size, n, inm, p, rows, ls, ds, ps, qs, pos);
      if !consistent {
        n := 0;
        return;
      }
      if inm > 0 {
        BetweenCanon(rows, ps, qs, p);
        maxpos := FMaxPos(inn, size, p, done, ls, ds, ps, qs);
      }
    }
    if inm == 0 {
      CountZero(ps);
    }
    AllReduced(rows, ps, qs, p);
    TrackedEnd(rows, ps, qs, pos, p);
    BetweenCanon(rows, ps, qs, p);
    OwnsDone(inn, done, ls, ds, ps, qs);
  }

  lemma EmptiedNodes(ls: seq<Nodes>, m: seq<Nodes>, k: nat)
    requires k < |ls| && m == ls[k := []]
    ensures forall j, x :: 0 <= j < |m| && x in m[j] ==> x in ls[j]
  {
  }

  lemma HoldsLength(a: array<PolyNode?>, ls: seq<Nodes>, ps: seq<Poly>)
    requires Holds(a, ls, ps)
    ensures |ls| == |ps| <= a.Length
  {
  }

  lemma BetweenCanon(rows: seq<Poly>, todo: seq<Poly>, done: seq<Poly>, p: int)
    requires Between(rows, todo, done, p)
    ensures AllCanon(todo, p) && Triangular(done, p)
  {
  }
}
