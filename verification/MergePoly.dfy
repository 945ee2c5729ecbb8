/** The destructive sum f + g of calc.c: the nodes of both lists are relinked or freed. */
module MergePoly {
  import opened Basics
  import opened Modular
  import opened InvFF
  import opened FieldFF
  import opened SparsePoly
  import opened PolyList
  import opened ReduceD

  // ---------- the sum ----------

  /** f + g is f minus p-1 times g. */
  function Plus(f: Poly, g: Poly, p: int): Poly
    requires p > 0
  {
    Minus(f, p - 1, g, p)
  }

  /** In F_p, minus (p-1) is plus 1. */
  lemma MinusIsPlus(a: int, b: int, p: int)
    ensures Cong(a - (p - 1) * b, a + b, p)
  {
    assert a - (p - 1) * b == a + b + -b * p;
    CongIntro(a - (p - 1) * b, a + b, -b, p);
  }

  lemma NegMulKeeps(b: int, p: int)
    requires 0 < b < p
    ensures NegMul(p - 1, b, p) == b
  {
    MinusIsPlus(0, b, p);
    hide Cong;
    assert 0 - (p - 1) * b == -((p - 1) * b);
    CongTrans(NegMul(p - 1, b, p), -((p - 1) * b), b, p);
    CongUnique(NegMul(p - 1, b, p), b, p);
  }

  lemma AddAgrees(a: int, b: int, p: int)
    requires Modulus(p) && Rep(a, p) && Rep(b, p)
    ensures p > 0 && AddFF(a, b, p) == SubMul(a, p - 1, b, p)
  {
    ModulusBound(p);
    MinusIsPlus(a, b, p);
    hide Cong, Modulus, AddFF, SubMul;
    var d := SubMul(a, p - 1, b, p);
    CongTrans(d, a - (p - 1) * b, a + b, p);
    CongSym(d, a + b, p);
    CongTrans(AddFF(a, b, p), a + b, d, p);
    CongUnique(AddFF(a, b, p), d, p);
  }

  lemma {:induction false} NegScaleKeeps(g: Poly, p: int)
    requires p > 0 && Nonzero(g, p)
    ensures NegScale(p - 1, g, p) == g
  {
    if g != [] {
      NegMulKeeps(g[0].c, p);
      NegScaleKeeps(g[1..], p);
      assert g == [g[0]] + g[1..];
    }
  }

  /** The coefficients of the sum. */
  lemma CoefPlus(f: Poly, g: Poly, p: int, m: int)
    requires p > 0 && Canon(f, p) && Canon(g, p)
    ensures Coef(Plus(f, g, p), m) == (Coef(f, m) + Coef(g, m)) % p
  {
    CoefMinus(f, p - 1, g, p, m);
    var a, b := Coef(f, m), Coef(g, m);
    SameRemainder(a - (p - 1) * b, a + b, p) by { MinusIsPlus(a, b, p); }
  }

  lemma SameRemainder(a: int, b: int, p: int)
    requires p > 0 && Cong(a, b, p)
    ensures a % p == b % p
  {
    CongMod(a, p);
    CongMod(b, p);
    hide Cong;
    CongSym(b % p, b, p);
    CongTrans(a % p, a, b, p);
    CongTrans(a % p, b, b % p, p);
    CongUnique(a % p, b % p, p);
  }

  lemma CanonPlus(f: Poly, g: Poly, p: int)
    requires IsPrime(p) && Canon(f, p) && Canon(g, p)
    ensures Canon(Plus(f, g, p), p)
  {
    var k := 1 + (if f == [] then 0 else f[0].m) + (if g == [] then 0 else g[0].m);
    CanonMinus(f, p - 1, g, p, k);
  }

  /** The sum does not depend on the order. */
  lemma PlusCommutes(f: Poly, g: Poly, p: int)
    requires IsPrime(p) && Canon(f, p) && Canon(g, p)
    ensures Plus(f, g, p) == Plus(g, f, p)
  {
    CanonPlus(f, g, p);
    CanonPlus(g, f, p);
    hide Canon, Plus, Coef;
    forall m
      ensures Coef(Plus(f, g, p), m) == Coef(Plus(g, f, p), m)
    {
      CoefPlus(f, g, p, m);
      CoefPlus(g, f, p, m);
    }
    CanonUnique(Plus(f, g, p), Plus(g, f, p), p);
  }

  /** And not on the grouping. */
  lemma PlusAssociates(f: Poly, g: Poly, h: Poly, p: int)
    requires IsPrime(p) && Canon(f, p) && Canon(g, p) && Canon(h, p)
    ensures Plus(Plus(f, g, p), h, p) == Plus(f, Plus(g, h, p), p)
  {
    CanonPlus(f, g, p);
    CanonPlus(g, h, p);
    var l, r := Plus(Plus(f, g, p), h, p), Plus(f, Plus(g, h, p), p);
    CanonPlus(Plus(f, g, p), h, p);
    CanonPlus(f, Plus(g, h, p), p);
    hide Canon, Plus, Coef;
    forall m
      ensures Coef(l, m) == Coef(r, m)
    {
      CoefAssociates(f, g, h, p, m);
    }
    CanonUnique(l, r, p);
  }

  lemma CoefAssociates(f: Poly, g: Poly, h: Poly, p: int, m: int)
    requires IsPrime(p) && Canon(f, p) && Canon(g, p) && Canon(h, p)
    ensures Coef(Plus(Plus(f, g, p), h, p), m) == Coef(Plus(f, Plus(g, h, p), p), m)
  {
    hide Canon, Plus, Coef, Cong;
    CanonPlus(f, g, p);
    CanonPlus(g, h, p);
    CoefPlus(f, g, p, m);
    CoefPlus(g, h, p, m);
    CoefPlus(Plus(f, g, p), h, p, m);
    CoefPlus(f, Plus(g, h, p), p, m);
    ModuloAssociates(Coef(f, m), Coef(g, m), Coef(h, m), p);
  }

  lemma ModuloAssociates(x: int, y: int, z: int, p: int)
    requires p > 0
    ensures ((x + y) % p + z) % p == (x + (y + z) % p) % p
  {
    ModuloInside(x + y, z, p);
    ModuloInside(y + z, x, p);
    assert x + y + z == y + z + x;
  }

  lemma ModuloInside(a: int, b: int, p: int)
    requires p > 0
    ensures (a % p + b) % p == (a + b) % p == (b + a % p) % p
  {
    CongMod(a, p);
    CongRefl(b, p);
    hide Cong;
    CongAdd(a % p, a, b, b, p);
    SameRemainder(a % p + b, a + b, p);
  }

  // ---------- one step of the merge ----------

  /** Equal monomials: q1 keeps the sum, or is freed when it vanishes; q2 is freed. */
  method MergeSum(r: PolyNode, q1: PolyNode, q2: PolyNode, p: int,
                  ghost out: seq<PolyNode>, ghost s1: seq<PolyNode>, ghost s2: seq<PolyNode>)
      returns (r': PolyNode, kept: bool)
    requires Modulus(p) && p > 0 && Merging(r, q1, q2, out, s1, s2)
    requires Rep(q1.c, p) && Rep(q2.c, p) && q1.m == q2.m
    requires s1 != [] && s2 != []
    modifies r`next, q1`c
    ensures var out' := if kept then out + [q1] else out;
      && Merging(r', q1.next, q2.next, out', s1[1..], s2[1..])
      && Pending(out', s1[1..], s2[1..], p - 1, p) == old(Pending(out, s1, s2, p - 1, p))
    ensures q1.next == old(q1.next)
  {
    hide Merging, Modulus, Minus, SubMul, AddFF, TermsOf, IsList, Building, Disjoint, Distinct;
    MergingHeads(r, q1, q2, out, s1, s2);
    MergingDisjoint(r, q1, q2, out, s1, s2);
    ListDistinct(q1, s1);
    ghost var f, g, o := TermsOf(s1[1..]), TermsOf(s2[1..]), TermsOf(out);
    AddAgrees(q1.c, q2.c, p);
    MinusEqual(Term(q1.c, q1.m), f, p - 1, Term(q2.c, q2.m), g, p);
    var d := AddFF(q1.c, q2.c, p);
    kept := d != 0;
    if kept {
      q1.c := d;
      Append(r, q1, out);
      r' := q1;
      DisjointMove(out, s1, s2);
      MergingDrop(r', q1.next, q2.next, out + [q1], s1[1..], s2, 0, 1);
      TermsSnoc(out, q1);
      Assoc(o, [Term(d, q1.m)], Minus(f, p - 1, g, p));
    } else {
      r' := r;
      MergingDrop(r', q1.next, q2.next, out, s1, s2, 1, 1);
    }
  }

  lemma DisjointSwap(a: seq<PolyNode>, b: seq<PolyNode>)
    requires Disjoint(a, b)
    ensures Disjoint(b, a)
  {
  }

  /** The monomial of q2 is larger: q2 is linked as it is. */
  method MergeOther(r: PolyNode, q1: PolyNode, q2: PolyNode, p: int,
                    ghost out: seq<PolyNode>, ghost s1: seq<PolyNode>, ghost s2: seq<PolyNode>)
    requires p > 0 && Merging(r, q1, q2, out, s1, s2) && q1.m < q2.m && 0 < q2.c < p
    requires s1 != [] && s2 != []
    modifies r`next
    ensures Merging(q2, q1, q2.next, out + [q2], s1, s2[1..])
    ensures Pending(out + [q2], s1, s2[1..], p - 1, p) == old(Pending(out, s1, s2, p - 1, p))
    ensures q2.next == old(q2.next)
  {
    hide Merging, Minus, NegMul, TermsOf, IsList, Building, Disjoint, Distinct;
    MergingHeads(r, q1, q2, out, s1, s2);
    MergingDisjoint(r, q1, q2, out, s1, s2);
    ListDistinct(q2, s2);
    OtherNew(r, q1, q2, out, s1, s2);
    NegMulKeeps(q2.c, p);
    MinusSecond(Term(q1.c, q1.m), TermsOf(s1[1..]), p - 1, Term(q2.c, q2.m), TermsOf(s2[1..]), p);
    Append(r, q2, out);
    DisjointSwap(s1, s2);
    DisjointMove(out, s2, s1);
    DisjointSwap(s2[1..], s1);
    MergingDrop(q2, q1, q2.next, out + [q2], s1, s2[1..], 0, 0);
    TermsSnoc(out, q2);
    Assoc(TermsOf(out), [Term(q2.c, q2.m)], Minus(TermsOf(s1), p - 1, TermsOf(s2[1..]), p));
  }

  lemma OtherNew(r: PolyNode, q1: PolyNode, q2: PolyNode,
                 out: seq<PolyNode>, s1: seq<PolyNode>, s2: seq<PolyNode>)
    requires Merging(r, q1, q2, out, s1, s2)
    ensures q2 !in out
  {
    ListTail(q2, s2);
    assert s2[0] in s2;
  }

  // ---------- where the nodes are ----------

  /** The four ways one step moves nodes of the two lists. */
  lemma AccountCases(all: seq<PolyNode>, out: seq<PolyNode>, s1: seq<PolyNode>, s2: seq<PolyNode>, freed: set<PolyNode>)
    requires Accounted(all, out, s1 + s2, freed) && s1 != [] && s2 != []
    requires Distinct(s1) && Distinct(s2) && Disjoint(out, s1) && Disjoint(out, s2) && Disjoint(s1, s2)
    ensures Accounted(all, out + [s1[0]], s1[1..] + s2, freed)
    ensures Accounted(all, out + [s2[0]], s1 + s2[1..], freed)
    ensures Accounted(all, out + [s1[0]], s1[1..] + s2[1..], freed + {s2[0]})
    ensures Accounted(all, out, s1[1..] + s2[1..], freed + {s1[0], s2[0]})
    ensures s1[0] in all && s2[0] in all
  {
    var a, b, t1, t2 := s1[0], s2[0], s1[1..], s2[1..];
    assert s1 == [a] + t1 && s2 == [b] + t2;
    assert a in s1 && b in s2 && a !in t1 && b !in t2;
    AccountCons(all, out, a, t1 + s2, freed) by { assert s1 + s2 == [a] + (t1 + s2); }
    AccountSwap(all, out, s1, s2, freed);
    AccountCons(all, out, b, t2 + s1, freed) by { assert s2 + s1 == [b] + (t2 + s1); }
    AccountSwap(all, out + [b], t2, s1, freed);
    AccountSwap(all, out, t2, s1, freed + {b});
    AccountCons(all, out, a, t1 + t2, freed + {b}) by { assert s1 + t2 == [a] + (t1 + t2); }
    assert freed + {b} + {a} == freed + {a, b};
    hide Accounted;
  }

  lemma AccountSwap(all: seq<PolyNode>, out: seq<PolyNode>, s1: seq<PolyNode>, s2: seq<PolyNode>, freed: set<PolyNode>)
    requires Accounted(all, out, s1 + s2, freed)
    ensures Accounted(all, out, s2 + s1, freed)
  {
    assert forall n :: n in s1 + s2 <==> n in s2 + s1;
  }

  lemma AccountCons(all: seq<PolyNode>, out: seq<PolyNode>, n: PolyNode, rest: seq<PolyNode>, freed: set<PolyNode>)
    requires Accounted(all, out, [n] + rest, freed) && n !in rest && n !in out
    ensures Accounted(all, out + [n], rest, freed) && Accounted(all, out, rest, freed + {n})
    ensures n in all
  {
    assert n in [n] + rest;
    assert forall k :: k in [n] + rest <==> k == n || k in rest;
  }

  // ---------- the loop ----------

  ghost predicate InSum(r: PolyNode, q1: PolyNode?, q2: PolyNode?,
                        out: seq<PolyNode>, s1: seq<PolyNode>, s2: seq<PolyNode>,
                        all: seq<PolyNode>, freed: set<PolyNode>, spec: Poly, p: int)
    reads out, s1, s2
  {
    && p > 0 && Merging(r, q1, q2, out, s1, s2)
    && out != [] && out[0].c == 0 && out[0].m == 0 && out[0] !in all
    && Pending(out, s1, s2, p - 1, p) == [Term(0, 0)] + spec
    && Accounted(all, out, s1 + s2, freed)
    && Nonzero(TermsOf(s1), p) && Nonzero(TermsOf(s2), p)
  }

  lemma InSumHeads(r: PolyNode, q1: PolyNode, q2: PolyNode,
                   out: seq<PolyNode>, s1: seq<PolyNode>, s2: seq<PolyNode>,
                   all: seq<PolyNode>, freed: set<PolyNode>, spec: Poly, p: int)
    requires InSum(r, q1, q2, out, s1, s2, all, freed, spec, p)
    ensures p > 0 && Merging(r, q1, q2, out, s1, s2) && s1 != [] && s2 != []
    ensures q1 == s1[0] && q2 == s2[0] && r in out && q1 in all && q2 in all && q1 !in out && q1 !in s2 && q1 !in s1[1..]
    ensures r !in s1 && r !in s2
    ensures Rep(q1.c, p) && Rep(q2.c, p) && 0 < q2.c < p
    ensures Accounted(all, out + [q1], s1[1..] + s2, freed)
    ensures Accounted(all, out + [q2], s1 + s2[1..], freed)
    ensures Accounted(all, out + [q1], s1[1..] + s2[1..], freed + {q2})
    ensures Accounted(all, out, s1[1..] + s2[1..], freed + {q1, q2})
    ensures Nonzero(TermsOf(s1), p) && Nonzero(TermsOf(s2), p)
    ensures Nonzero(TermsOf(s1[1..]), p) && Nonzero(TermsOf(s2[1..]), p)
    ensures Pending(out, s1, s2, p - 1, p) == [Term(0, 0)] + spec
    ensures out != [] && out[0].c == 0 && out[0].m == 0 && out[0] !in all
  {
    hide Merging, Pending, Accounted, Nonzero, TermsOf;
    MergingHeads(r, q1, q2, out, s1, s2);
    MergingDisjoint(r, q1, q2, out, s1, s2);
    ListDistinct(q1, s1);
    ListDistinct(q2, s2);
    NonzeroTail(TermsOf(s1), p);
    NonzeroTail(TermsOf(s2), p);
    AccountCases(all, out, s1, s2, freed);
    assert TermsOf(s1)[1..] == TermsOf(s1[1..]);
    assert TermsOf(s2)[1..] == TermsOf(s2[1..]);
  }

  lemma InSumIntro(r: PolyNode, q1: PolyNode?, q2: PolyNode?,
                   out: seq<PolyNode>, s1: seq<PolyNode>, s2: seq<PolyNode>,
                   all: seq<PolyNode>, freed: set<PolyNode>, spec: Poly, p: int)
    requires p > 0 && Merging(r, q1, q2, out, s1, s2)
    requires out != [] && out[0].c == 0 && out[0].m == 0 && out[0] !in all
    requires Pending(out, s1, s2, p - 1, p) == [Term(0, 0)] + spec
    requires Accounted(all, out, s1 + s2, freed)
    requires Nonzero(TermsOf(s1), p) && Nonzero(TermsOf(s2), p)
    ensures InSum(r, q1, q2, out, s1, s2, all, freed, spec, p)
    ensures r in out
  {
    hide Pending, Accounted, Nonzero, TermsOf;
    MergingParts(r, q1, q2, out, s1, s2);
  }

  method SumStep(r0: PolyNode, p1: PolyNode, p2: PolyNode, p: int,
                 ghost out0: seq<PolyNode>, ghost t1: seq<PolyNode>, ghost t2: seq<PolyNode>,
                 ghost all: seq<PolyNode>, ghost freed0: set<PolyNode>, ghost spec: Poly)
      returns (r: PolyNode, q1: PolyNode?, q2: PolyNode?, ghost out: seq<PolyNode>,
               ghost s1: seq<PolyNode>, ghost s2: seq<PolyNode>, ghost freed: set<PolyNode>)
    requires Modulus(p) && InSum(r0, p1, p2, out0, t1, t2, all, freed0, spec, p)
    modifies r0`next, p1`c
    ensures InSum(r, q1, q2, out, s1, s2, all, freed, spec, p)
    ensures |s1| + |s2| < |t1| + |t2|
    ensures r in out && out != [] && out0 != [] && out[0] == out0[0]
    ensures forall n :: n in out ==> n in out0 || n in all
  {
    hide Modulus, Merging, Pending, Accounted, Nonzero, TermsOf, InSum, Rep;
    InSumHeads(r0, p1, p2, out0, t1, t2, all, freed0, spec, p);
    if p1.m == p2.m {
      var kept;
      r, kept := MergeSum(r0, p1, p2, p, out0, t1, t2);
      q1, q2, s1, s2 := p1.next, p2.next, t1[1..], t2[1..];
      if kept {
        out, freed := out0 + [p1], freed0 + {p2};
      } else {
        out, freed := out0, freed0 + {p1, p2};
      }
    } else if p1.m > p2.m {
      MergeFirst(r0, p1, p2, p - 1, p, out0, t1, t2);
      r, q1, q2, s1, s2 := p1, p1.next, p2, t1[1..], t2;
      out, freed := out0 + [p1], freed0;
    } else {
      MergeOther(r0, p1, p2, p, out0, t1, t2);
      r, q1, q2, s1, s2 := p2, p1, p2.next, t1, t2[1..];
      out, freed := out0 + [p2], freed0;
    }
    InSumIntro(r, q1, q2, out, s1, s2, all, freed, spec, p);
  }

  /** What is left of either list is linked as it is. */
  method FinishSum(r: PolyNode, q1: PolyNode?, q2: PolyNode?, p: int,
                   ghost out: seq<PolyNode>, ghost s1: seq<PolyNode>, ghost s2: seq<PolyNode>,
                   ghost all: seq<PolyNode>, ghost freed: set<PolyNode>, ghost spec: Poly)
      returns (ghost rest: seq<PolyNode>)
    requires InSum(r, q1, q2, out, s1, s2, all, freed, spec, p) && (q1 == null || q2 == null)
    requires forall n :: n in out ==> n in all || n == out[0]
    modifies r`next
    ensures out != [] && IsList(out[0].next, out[1..] + rest)
    ensures TermsOf(out[1..] + rest) == spec
    ensures forall n :: n in all <==> n in freed || n in out[1..] + rest
    ensures forall n :: n in freed ==> n !in out[1..] + rest
  {
    hide *;
    InSumEnd(r, q1, q2, out, s1, s2, all, freed, spec, p);
    if q1 != null {
      ListEnd(s2);
      rest := s1;
      MinusNothing(TermsOf(s1), p - 1, p);
      assert s1 + [] == s1;
      PendingTail(out, s1, s2, rest, Term(0, 0), spec, p - 1, p);
      Attach(r, q1, out, rest);
    } else {
      ListEnd(s1);
      rest := s2;
      MinusNothing(TermsOf(s2), p - 1, p);
      NegScaleKeeps(TermsOf(s2), p);
      assert [] + s2 == s2;
      PendingTail(out, s1, s2, rest, Term(0, 0), spec, p - 1, p);
      Attach(r, q2, out, rest);
    }
  }

  lemma InSumEnd(r: PolyNode, q1: PolyNode?, q2: PolyNode?,
                 out: seq<PolyNode>, s1: seq<PolyNode>, s2: seq<PolyNode>,
                 all: seq<PolyNode>, freed: set<PolyNode>, spec: Poly, p: int)
    requires InSum(r, q1, q2, out, s1, s2, all, freed, spec, p)
    requires forall n :: n in out ==> n in all || n == out[0]
    ensures p > 0 && Building(r, out) && IsList(q1, s1) && IsList(q2, s2)
    ensures Disjoint(out, s1) && Disjoint(out, s2) && Nonzero(TermsOf(s2), p)
    ensures r in out && r !in s1 && r !in s2
    ensures out != [] && out[0].c == 0 && out[0].m == 0
    ensures Pending(out, s1, s2, p - 1, p) == [Term(0, 0)] + spec
    ensures TermsOf([]) == []
    ensures forall n :: n in all <==> n in freed || n in out[1..] + (s1 + s2)
    ensures forall n :: n in freed ==> n !in out[1..] + (s1 + s2)
  {
    MergingParts(r, q1, q2, out, s1, s2);
    MergingDisjoint(r, q1, q2, out, s1, s2);
    BuildingDistinct(r, out);
    AccountEnd(all, out, s1 + s2, freed);
    hide Merging, Pending, Accounted, Nonzero, Building, IsList, Disjoint, Distinct;
  }

  lemma BuildingDistinct(r: PolyNode, out: seq<PolyNode>)
    requires Building(r, out)
    ensures Distinct(out)
  {
  }

  lemma AccountEnd(all: seq<PolyNode>, out: seq<PolyNode>, rest: seq<PolyNode>, freed: set<PolyNode>)
    requires Accounted(all, out, rest, freed) && out != [] && Distinct(out) && out[0] !in all
    requires forall n :: n in out ==> n in all || n == out[0]
    ensures forall n :: n in all <==> n in freed || n in out[1..] + rest
    ensures forall n :: n in freed ==> n !in out[1..] + rest
  {
    assert out == [out[0]] + out[1..];
    assert out[0] !in out[1..];
  }

  // ---------- the whole sum ----------

  lemma SumStart(root: PolyNode, f: PolyNode?, g: PolyNode?, fs: seq<PolyNode>, gs: seq<PolyNode>, p: int)
    requires IsList(f, fs) && IsList(g, gs) && Disjoint(fs, gs) && p > 0
    requires root !in fs && root !in gs && root.c == 0 && root.m == 0
    requires Nonzero(TermsOf(fs), p) && Nonzero(TermsOf(gs), p)
    ensures InSum(root, f, g, [root], fs, gs, fs + gs, {}, Plus(TermsOf(fs), TermsOf(gs), p), p)
  {
    MergingStart(root, f, g, fs, gs, p - 1, p);
    AccountStart(root, fs + gs);
    hide Merging, Pending, Accounted, Nonzero, TermsOf, IsList, Disjoint, Minus;
  }

  lemma AccountStart(root: PolyNode, all: seq<PolyNode>)
    requires root !in all
    ensures Accounted(all, [root], all, {})
  {
  }

  lemma PlusNothing(f: Poly, p: int)
    requires p > 0 && Nonzero(f, p)
    ensures Plus(f, [], p) == f && Plus([], f, p) == f
  {
    MinusNothing(f, p - 1, p);
    NegScaleKeeps(f, p);
  }

  /** Main result: the list of f + g.  No node is new: every node of f and of g is in the result or
      freed, and not both. */
  method MergePoly(f: PolyNode?, g: PolyNode?, p: int, ghost fs: seq<PolyNode>, ghost gs: seq<PolyNode>)
      returns (h: PolyNode?, ghost hs: seq<PolyNode>, ghost freed: set<PolyNode>)
    requires Modulus(p) && p > 0
    requires IsList(f, fs) && IsList(g, gs) && Disjoint(fs, gs)
    requires Nonzero(TermsOf(fs), p) && Nonzero(TermsOf(gs), p)
    modifies fs, gs
    ensures IsList(h, hs) && TermsOf(hs) == old(Plus(TermsOf(fs), TermsOf(gs), p))
    ensures forall n :: n in fs || n in gs <==> n in freed || n in hs
    ensures forall n :: n in freed ==> n !in hs
  {
    hide *;
    freed := {};
    ListEnds(f, fs);
    ListEnds(g, gs);
    PlusNothing(TermsOf(fs), p);
    PlusNothing(TermsOf(gs), p);
    if f == null {
      h, hs := g, gs;
      return;
    }
    if g == null {
      h, hs := f, fs;
      return;
    }
    ghost var all := fs + gs;
    ghost var spec := Plus(TermsOf(fs), TermsOf(gs), p);
    var root := new PolyNode(0, 0);
    var r: PolyNode := root;
    var q1: PolyNode?, q2: PolyNode? := f, g;
    ghost var out: seq<PolyNode>, s1: seq<PolyNode>, s2: seq<PolyNode> := [root], fs, gs;
    SumStart(root, f, g, fs, gs, p);
    while q1 != null && q2 != null
      invariant InSum(r, q1, q2, out, s1, s2, all, freed, spec, p)
      invariant r in out && out[0] == root
      invariant forall n :: n in out ==> n in all || n == root
      decreases |s1| + |s2|
    {
      InSumHeads(r, q1, q2, out, s1, s2, all, freed, spec, p);
      r, q1, q2, out, s1, s2, freed := SumStep(r, q1, q2, p, out, s1, s2, all, freed, spec);
    }
    ghost var rest := FinishSum(r, q1, q2, p, out, s1, s2, all, freed, spec);
    h, hs := root.next, out[1..] + rest;
  }
}
