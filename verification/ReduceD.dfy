/** The destructive reduction f <- f - c*g of calc.c, on heap lists. */
module ReduceD {
  import opened Basics
  import opened InvFF
  import opened FieldFF
  import opened SparsePoly
  import opened PolyList

  /** The merge in progress: `out` is built, `s1` and `s2` are still to be read. */
  ghost predicate Merging(r: PolyNode, q1: PolyNode?, q2: PolyNode?,
                          out: seq<PolyNode>, s1: seq<PolyNode>, s2: seq<PolyNode>)
    reads out`next, s1`next, s2`next
  {
    && Building(r, out) && IsList(q1, s1) && IsList(q2, s2)
    && Disjoint(out, s1) && Disjoint(out, s2) && Disjoint(s1, s2)
  }

  /** What is built, followed by what the merge will still produce. */
  ghost function Pending(out: seq<PolyNode>, s1: seq<PolyNode>, s2: seq<PolyNode>, c: int, p: int): Poly
    requires p > 0
    reads out`c, out`m, s1`c, s1`m, s2`c, s2`m
  {
    TermsOf(out) + Minus(TermsOf(s1), c, TermsOf(s2), p)
  }

  lemma MergingHeads(r: PolyNode, q1: PolyNode, q2: PolyNode,
                     out: seq<PolyNode>, s1: seq<PolyNode>, s2: seq<PolyNode>)
    requires Merging(r, q1, q2, out, s1, s2)
    ensures out != [] && s1 != [] && s2 != [] && q1 == s1[0] && q2 == s2[0]
    ensures r in out && r !in s1 && r !in s2 && Building(r, out)
    ensures q1 !in out && q1 !in s2 && q1 !in s1[1..] && q2 !in s2[1..]
    ensures IsList(q1, s1) && IsList(q1.next, s1[1..]) && IsList(q2, s2) && IsList(q2.next, s2[1..])
    ensures TermsOf(s1) == [Term(q1.c, q1.m)] + TermsOf(s1[1..])
    ensures TermsOf(s2) == [Term(q2.c, q2.m)] + TermsOf(s2[1..])
  {
    assert s1[0] in s1 && s2[0] in s2;
    ListTail(q1, s1);
    ListTail(q2, s2);
  }

  lemma MergingDrop(r: PolyNode, q1: PolyNode?, q2: PolyNode?, out: seq<PolyNode>,
                    s1: seq<PolyNode>, s2: seq<PolyNode>, k1: nat, k2: nat)
    requires k1 <= |s1| && k2 <= |s2|
    requires Disjoint(out, s1) && Disjoint(out, s2) && Disjoint(s1, s2)
    requires Building(r, out) && IsList(q1, s1[k1..]) && IsList(q2, s2[k2..])
    ensures Merging(r, q1, q2, out, s1[k1..], s2[k2..])
  {
    assert forall n :: n in s1[k1..] ==> n in s1;
    assert forall n :: n in s2[k2..] ==> n in s2;
  }

  lemma MergingDisjoint(r: PolyNode, q1: PolyNode?, q2: PolyNode?,
                        out: seq<PolyNode>, s1: seq<PolyNode>, s2: seq<PolyNode>)
    requires Merging(r, q1, q2, out, s1, s2)
    ensures Disjoint(out, s1) && Disjoint(out, s2) && Disjoint(s1, s2)
  {
  }

  /** Moving the first node of s1 to the end of `out` keeps the three parts disjoint. */
  lemma DisjointMove(out: seq<PolyNode>, s1: seq<PolyNode>, s2: seq<PolyNode>)
    requires s1 != [] && Distinct(s1)
    requires Disjoint(out, s1) && Disjoint(out, s2) && Disjoint(s1, s2)
    ensures Disjoint(out + [s1[0]], s1[1..]) && Disjoint(out + [s1[0]], s2) && Disjoint(s1[1..], s2)
  {
    assert s1[0] in s1;
  }

  lemma ListDistinct(q: PolyNode?, s: seq<PolyNode>)
    requires IsList(q, s)
    ensures Distinct(s)
  {
  }

  lemma DisjointFresh(out: seq<PolyNode>, n: PolyNode, s1: seq<PolyNode>, s2: seq<PolyNode>)
    requires Disjoint(out, s1) && Disjoint(out, s2) && Disjoint(s1, s2) && n !in s1 && n !in s2
    ensures Disjoint(out + [n], s1) && Disjoint(out + [n], s2)
  {
  }

  lemma TermsSnoc(ns: seq<PolyNode>, n: PolyNode)
    ensures TermsOf(ns + [n]) == TermsOf(ns) + [Term(n.c, n.m)]
  {
    TermsConcat(ns, [n]);
    assert TermsOf([n]) == [Term(n.c, n.m)];
  }

  // ---------- the merge function, one step at a time ----------

  lemma MinusEqual(a: Term, f: Poly, c: int, b: Term, g: Poly, p: int)
    requires p > 0 && a.m == b.m
    ensures var d := SubMul(a.c, c, b.c, p);
      Minus([a] + f, c, [b] + g, p) == if d != 0 then [Term(d, a.m)] + Minus(f, c, g, p) else Minus(f, c, g, p)
  {
    assert ([a] + f)[1..] == f && ([b] + g)[1..] == g;
  }

  lemma MinusFirst(a: Term, f: Poly, c: int, b: Term, g: Poly, p: int)
    requires p > 0 && a.m > b.m
    ensures Minus([a] + f, c, [b] + g, p) == [a] + Minus(f, c, [b] + g, p)
  {
    assert ([a] + f)[1..] == f;
  }

  lemma MinusSecond(a: Term, f: Poly, c: int, b: Term, g: Poly, p: int)
    requires p > 0 && a.m < b.m
    ensures Minus([a] + f, c, [b] + g, p) == [Term(NegMul(c, b.c, p), b.m)] + Minus([a] + f, c, g, p)
  {
    assert ([b] + g)[1..] == g;
  }

  // ---------- one iteration ----------

  /** Equal monomials: q1 keeps the combined coefficient, or is freed when it vanishes. */
  method MergeEqual(r: PolyNode, q1: PolyNode, q2: PolyNode, c: int, p: int,
                    ghost out: seq<PolyNode>, ghost s1: seq<PolyNode>, ghost s2: seq<PolyNode>)
      returns (r': PolyNode, kept: bool)
    requires Modulus(p) && Rep(c, p) && Merging(r, q1, q2, out, s1, s2)
    requires Rep(q1.c, p) && Rep(q2.c, p) && q2.c != 0 && q1.m == q2.m
    requires s1 != [] && s2 != []
    modifies r`next, q1`c
    ensures var out' := if kept then out + [q1] else out;
      && Merging(r', q1.next, q2.next, out', s1[1..], s2[1..])
      && p > 0 && Pending(out', s1[1..], s2[1..], c, p) == old(Pending(out, s1, s2, c, p))
    ensures q1.next == old(q1.next)
  {
    hide Merging, Modulus, Minus, SubMul, SubFF, MulFF, TermsOf, IsList, Building, Disjoint, Distinct;
    ModulusBound(p);
    MergingHeads(r, q1, q2, out, s1, s2);
    MergingDisjoint(r, q1, q2, out, s1, s2);
    ListDistinct(q1, s1);
    ghost var f, g, o := TermsOf(s1[1..]), TermsOf(s2[1..]), TermsOf(out);
    SubMulAgrees(q1.c, c, q2.c, p);
    MinusEqual(Term(q1.c, q1.m), f, c, Term(q2.c, q2.m), g, p);
    var d := SubFF(q1.c, MulFF(c, q2.c, p), p);
    kept := d != 0;
    if kept {
      q1.c := d;
      Append(r, q1, out);
      r' := q1;
      DisjointMove(out, s1, s2);
      MergingDrop(r', q1.next, q2.next, out + [q1], s1[1..], s2, 0, 1);
      TermsSnoc(out, q1);
      Assoc(o, [Term(d, q1.m)], Minus(f, c, g, p));
    } else {
      r' := r;
      MergingDrop(r', q1.next, q2.next, out, s1, s2, 1, 1);
    }
  }

  /** The monomial of q1 is larger: q1 is linked as it is. */
  method MergeFirst(r: PolyNode, q1: PolyNode, q2: PolyNode, c: int, p: int,
                    ghost out: seq<PolyNode>, ghost s1: seq<PolyNode>, ghost s2: seq<PolyNode>)
    requires p > 0 && Merging(r, q1, q2, out, s1, s2) && q1.m > q2.m
    requires s1 != [] && s2 != []
    modifies r`next
    ensures Merging(q1, q1.next, q2, out + [q1], s1[1..], s2)
    ensures Pending(out + [q1], s1[1..], s2, c, p) == old(Pending(out, s1, s2, c, p))
    ensures q1.next == old(q1.next)
  {
    hide Merging, Modulus, Minus, TermsOf, IsList, Building, Disjoint, Distinct;
    MergingHeads(r, q1, q2, out, s1, s2);
    MergingDisjoint(r, q1, q2, out, s1, s2);
    ListDistinct(q1, s1);
    MinusFirst(Term(q1.c, q1.m), TermsOf(s1[1..]), c, Term(q2.c, q2.m), TermsOf(s2[1..]), p);
    Append(r, q1, out);
    DisjointMove(out, s1, s2);
    MergingDrop(q1, q1.next, q2, out + [q1], s1[1..], s2, 0, 0);
    TermsSnoc(out, q1);
    Assoc(TermsOf(out), [Term(q1.c, q1.m)], Minus(TermsOf(s1[1..]), c, TermsOf(s2), p));
  }

  /** The monomial of q2 is larger: a new node takes its negated multiple; g is not touched. */
  method MergeSecond(r: PolyNode, q1: PolyNode, q2: PolyNode, c: int, p: int,
                     ghost out: seq<PolyNode>, ghost s1: seq<PolyNode>, ghost s2: seq<PolyNode>)
      returns (n: PolyNode)
    requires Modulus(p) && Rep(c, p) && Merging(r, q1, q2, out, s1, s2) && q1.m < q2.m
    requires Rep(q2.c, p) && q2.c != 0 && s1 != [] && s2 != []
    modifies r`next
    ensures fresh(n) && p > 0
    ensures Merging(n, q1, q2.next, out + [n], s1, s2[1..])
    ensures Pending(out + [n], s1, s2[1..], c, p) == old(Pending(out, s1, s2, c, p))
  {
    hide Merging, Modulus, Minus, NegMul, NegFF, MulFF, TermsOf, IsList, Building, Disjoint, Distinct;
    ModulusBound(p);
    MergingHeads(r, q1, q2, out, s1, s2);
    MergingDisjoint(r, q1, q2, out, s1, s2);
    NegMulAgrees(c, q2.c, p);
    MinusSecond(Term(q1.c, q1.m), TermsOf(s1[1..]), c, Term(q2.c, q2.m), TermsOf(s2[1..]), p);
    n := new PolyNode(NegFF(MulFF(c, q2.c, p), p), q2.m);
    Append(r, n, out);
    DisjointFresh(out, n, s1, s2);
    MergingDrop(n, q1, q2.next, out + [n], s1, s2, 0, 1);
    TermsSnoc(out, n);
    Assoc(TermsOf(out), [Term(n.c, n.m)], Minus(TermsOf(s1), c, TermsOf(s2[1..]), p));
  }

  /** What a call of the reduction returns. */
  ghost function Reduction(f: Poly, c: int, g: Poly, p: int): Poly
    requires p > 0
  {
    if f != [] && c == 0 then f else Minus(f, c, g, p)
  }

  /** Coefficients of a list that the merge may still meet. */
  ghost predicate Nonzero(f: Poly, p: int) {
    forall i :: 0 <= i < |f| ==> 0 < f[i].c < p
  }

  lemma NonzeroTail(f: Poly, p: int)
    requires Nonzero(f, p) && f != []
    ensures Nonzero(f[1..], p) && 0 < f[0].c < p && Rep(f[0].c, p)
  {
  }

  /** Where the nodes of f are: built into the result, still to be read, or freed. */
  ghost predicate Accounted(fs: seq<PolyNode>, out: seq<PolyNode>, s1: seq<PolyNode>, freed: set<PolyNode>) {
    && (forall n :: n in fs ==> n in out || n in s1 || n in freed)
    && (forall n :: n in freed ==> n in fs && n !in out && n !in s1)
    && (forall n :: n in s1 ==> n in fs)
  }

  lemma AccountMove(fs: seq<PolyNode>, out: seq<PolyNode>, s1: seq<PolyNode>, freed: set<PolyNode>, kept: bool)
    requires Accounted(fs, out, s1, freed) && s1 != [] && Distinct(s1) && Disjoint(out, s1)
    ensures Accounted(fs, if kept then out + [s1[0]] else out, s1[1..], if kept then freed else freed + {s1[0]})
    ensures s1[0] in fs
  {
    assert s1 == [s1[0]] + s1[1..];
    assert s1[0] in s1;
  }

  lemma AccountFresh(fs: seq<PolyNode>, out: seq<PolyNode>, n: PolyNode, s1: seq<PolyNode>, freed: set<PolyNode>)
    requires Accounted(fs, out, s1, freed) && n !in fs
    ensures Accounted(fs, out + [n], s1, freed)
  {
  }

  /** f - c*g as a linked list: nodes of f are reused or freed, g is left alone. */
  method ReduceD(f: PolyNode?, c: int, g: PolyNode?, p: int, ghost fs: seq<PolyNode>, ghost gs: seq<PolyNode>)
      returns (h: PolyNode?, ghost hs: seq<PolyNode>, ghost freed: set<PolyNode>)
    requires Modulus(p) && Rep(c, p) && p > 0
    requires IsList(f, fs) && IsList(g, gs) && Disjoint(fs, gs)
    requires Nonzero(TermsOf(fs), p) && Nonzero(TermsOf(gs), p)
    modifies fs
    ensures IsList(h, hs) && TermsOf(hs) == old(Reduction(TermsOf(fs), c, TermsOf(gs), p))
    ensures forall n :: n in hs ==> (n in fs || fresh(n)) && n !in freed
    ensures forall n :: n in fs <==> n in freed || (n in hs && !fresh(n))
    ensures forall n :: n in gs ==> unchanged(n) && n !in hs
  {
    hide *;
    ReductionCases(TermsOf(fs), c, TermsOf(gs), p);
    ListEnds(f, fs);
    ListEnds(g, gs);
    NonzeroReps(gs, p);
    DisjointFrame(fs, gs);
    if f == null {
      var cm := new PolyNode(NegFF(c, p), 0);
      h, hs := Mul1Poly(cm, g, p, gs);
      freed := {};
      Mul1IsNegScale(c, TermsOf(gs), p);
      return;
    }
    if g == null {
      h, hs, freed := f, fs, {};
      return;
    }
    if c == 0 {
      h, hs, freed := f, fs, {};
      return;
    }
    h, hs, freed := MergeLoop(f, c, g, p, fs, gs);
  }

  lemma DisjointFrame(a: seq<PolyNode>, b: seq<PolyNode>)
    requires Disjoint(a, b)
    ensures forall n :: n in b ==> n !in a
  {
  }

  lemma ReductionCases(f: Poly, c: int, g: Poly, p: int)
    requires p > 0
    ensures f == [] ==> Reduction(f, c, g, p) == NegScale(c, g, p)
    ensures f != [] && (g == [] || c == 0) ==> Reduction(f, c, g, p) == f
    ensures f != [] && c != 0 ==> Reduction(f, c, g, p) == Minus(f, c, g, p)
  {
  }

  lemma ListEnds(q: PolyNode?, ns: seq<PolyNode>)
    requires IsList(q, ns)
    ensures q == null <==> ns == []
    ensures TermsOf(ns) == [] <==> ns == []
  {
  }

  lemma Mul1IsNegScale(c: int, g: Poly, p: int)
    requires Modulus(p) && Rep(c, p) && Nonzero(g, p) && p > 0
    ensures Mul1Terms(NegFF(c, p), 0, g, p) == NegScale(c, g, p)
  {
    if g != [] {
      NegMulAgrees(c, g[0].c, p);
      Mul1IsNegScale(c, g[1..], p);
    }
  }

  lemma MergingStart(root: PolyNode, f: PolyNode?, g: PolyNode?, fs: seq<PolyNode>, gs: seq<PolyNode>, c: int, p: int)
    requires IsList(f, fs) && IsList(g, gs) && Disjoint(fs, gs) && p > 0
    requires root !in fs && root !in gs
    ensures Merging(root, f, g, [root], fs, gs)
    ensures Pending([root], fs, gs, c, p) == [Term(root.c, root.m)] + Minus(TermsOf(fs), c, TermsOf(gs), p)
    ensures Accounted(fs, [root], fs, {})
  {
  }

  /** The result list, once one of the inputs is exhausted. */
  lemma PendingTail(out: seq<PolyNode>, s1: seq<PolyNode>, s2: seq<PolyNode>, rest: seq<PolyNode>,
                    t: Term, spec: Poly, c: int, p: int)
    requires out != [] && p > 0
    requires Pending(out, s1, s2, c, p) == [t] + spec && t == Term(out[0].c, out[0].m)
    requires TermsOf(rest) == Minus(TermsOf(s1), c, TermsOf(s2), p)
    ensures TermsOf(out[1..] + rest) == spec
  {
    hide *;
    TermsConcat(out[1..], rest);
    TermsFirst(out);
    PendingDef(out, s1, s2, c, p);
    PrefixCancel(t, TermsOf(out[1..]), TermsOf(rest), spec);
  }

  lemma PendingDef(out: seq<PolyNode>, s1: seq<PolyNode>, s2: seq<PolyNode>, c: int, p: int)
    requires p > 0
    ensures Pending(out, s1, s2, c, p) == TermsOf(out) + Minus(TermsOf(s1), c, TermsOf(s2), p)
  {
  }

  lemma TermsFirst(ns: seq<PolyNode>)
    requires ns != []
    ensures TermsOf(ns) == [Term(ns[0].c, ns[0].m)] + TermsOf(ns[1..])
  {
  }

  lemma PrefixCancel(t: Term, a: Poly, b: Poly, spec: Poly)
    requires ([t] + a) + b == [t] + spec
    ensures a + b == spec
  {
    assert (([t] + a) + b)[1..] == a + b;
    assert ([t] + spec)[1..] == spec;
  }

  /** Attach what remains: the rest of f, or the negated multiple of the rest of g. */
  method FinishMerge(r: PolyNode, q1: PolyNode?, q2: PolyNode?, c: int, p: int,
                     ghost out: seq<PolyNode>, ghost s1: seq<PolyNode>, ghost s2: seq<PolyNode>,
                     ghost t: Term, ghost spec: Poly)
      returns (ghost rest: seq<PolyNode>)
    requires Modulus(p) && Rep(c, p) && p > 0 && out != []
    requires Merging(r, q1, q2, out, s1, s2) && (q1 == null || q2 == null)
    requires Nonzero(TermsOf(s2), p)
    requires Pending(out, s1, s2, c, p) == [t] + spec && t == Term(out[0].c, out[0].m)
    modifies r`next
    ensures IsList(out[0].next, out[1..] + rest)
    ensures TermsOf(out[1..] + rest) == spec
    ensures if q1 != null then rest == s1 else s1 == [] && fresh(rest)
  {
    hide *;
    MergingParts(r, q1, q2, out, s1, s2);
    if q1 != null {
      ListEnd(s2);
      rest := s1;
      MinusNothing(TermsOf(s1), c, p);
      PendingTail(out, s1, s2, rest, t, spec, c, p);
      Attach(r, q1, out, rest);
    } else {
      ListEnd(s1);
      var cm := new PolyNode(NegFF(c, p), 0);
      NonzeroReps(s2, p);
      MinusNothing(TermsOf(s2), c, p);
      var tail: PolyNode?;
      Mul1IsNegScale(c, TermsOf(s2), p);
      tail, rest := Mul1Poly(cm, q2, p, s2);
      PendingTail(out, s1, s2, rest, t, spec, c, p);
      FreshDisjoint(out, rest);
      Attach(r, tail, out, rest);
    }
  }

  lemma MergingParts(r: PolyNode, q1: PolyNode?, q2: PolyNode?,
                     out: seq<PolyNode>, s1: seq<PolyNode>, s2: seq<PolyNode>)
    requires Merging(r, q1, q2, out, s1, s2)
    ensures Building(r, out) && IsList(q1, s1) && IsList(q2, s2) && Disjoint(out, s1)
    ensures r in out && r !in s1 && r !in s2
  {
  }

  lemma MinusNothing(f: Poly, c: int, p: int)
    requires p > 0
    ensures Minus(f, c, [], p) == f && Minus([], c, f, p) == NegScale(c, f, p)
  {
  }

  lemma NonzeroReps(ns: seq<PolyNode>, p: int)
    requires Nonzero(TermsOf(ns), p)
    ensures forall i :: 0 <= i < |ns| ==> Rep(ns[i].c, p)
  {
  }

  lemma FreshDisjoint(out: seq<PolyNode>, rest: seq<PolyNode>)
    requires forall n :: n in rest ==> n !in out
    ensures Disjoint(out, rest)
  {
  }

  /** The loop invariant of the merge. */
  ghost predicate InMerge(r: PolyNode, q1: PolyNode?, q2: PolyNode?,
                          out: seq<PolyNode>, s1: seq<PolyNode>, s2: seq<PolyNode>,
                          fs: seq<PolyNode>, freed: set<PolyNode>, spec: Poly, c: int, p: int)
    reads out, s1, s2
  {
    && p > 0 && Merging(r, q1, q2, out, s1, s2)
    && out != [] && out[0].c == 0 && out[0].m == 0 && out[0] !in fs
    && Pending(out, s1, s2, c, p) == [Term(0, 0)] + spec
    && Accounted(fs, out, s1, freed)
    && Nonzero(TermsOf(s1), p) && Nonzero(TermsOf(s2), p)
  }

  lemma InMergeHeads(r: PolyNode, q1: PolyNode, q2: PolyNode,
                     out: seq<PolyNode>, s1: seq<PolyNode>, s2: seq<PolyNode>,
                     fs: seq<PolyNode>, freed: set<PolyNode>, spec: Poly, c: int, p: int)
    requires InMerge(r, q1, q2, out, s1, s2, fs, freed, spec, c, p)
    ensures p > 0 && Merging(r, q1, q2, out, s1, s2) && s1 != [] && s2 != []
    ensures q1 == s1[0] && q2 == s2[0] && r in out && q1 in fs && q1 !in out
    ensures Rep(q1.c, p) && Rep(q2.c, p) && q2.c != 0
    ensures Accounted(fs, out + [q1], s1[1..], freed) && Accounted(fs, out, s1[1..], freed + {q1})
    ensures Accounted(fs, out, s1, freed)
    ensures Nonzero(TermsOf(s1), p) && Nonzero(TermsOf(s2), p)
    ensures Nonzero(TermsOf(s1[1..]), p) && Nonzero(TermsOf(s2[1..]), p)
    ensures Pending(out, s1, s2, c, p) == [Term(0, 0)] + spec
    ensures out != [] && out[0].c == 0 && out[0].m == 0 && out[0] !in fs
    ensures q1 !in s1[1..] && q1 !in s2
  {
    hide Merging, Pending, Accounted, Nonzero, TermsOf;
    MergingHeads(r, q1, q2, out, s1, s2);
    MergingDisjoint(r, q1, q2, out, s1, s2);
    ListDistinct(q1, s1);
    NonzeroTail(TermsOf(s1), p);
    NonzeroTail(TermsOf(s2), p);
    AccountMove(fs, out, s1, freed, true);
    AccountMove(fs, out, s1, freed, false);
    assert TermsOf(s1)[1..] == TermsOf(s1[1..]);
    assert TermsOf(s2)[1..] == TermsOf(s2[1..]);
  }

  method MergeStep(r0: PolyNode, p1: PolyNode, p2: PolyNode, c: int, p: int,
                   ghost out0: seq<PolyNode>, ghost t1: seq<PolyNode>, ghost t2: seq<PolyNode>,
                   ghost fs: seq<PolyNode>, ghost freed0: set<PolyNode>, ghost spec: Poly)
      returns (r: PolyNode, q1: PolyNode?, q2: PolyNode?, ghost out: seq<PolyNode>,
               ghost s1: seq<PolyNode>, ghost s2: seq<PolyNode>, ghost freed: set<PolyNode>)
    requires Modulus(p) && Rep(c, p)
    requires InMerge(r0, p1, p2, out0, t1, t2, fs, freed0, spec, c, p)
    modifies r0`next, p1`c
    ensures InMerge(r, q1, q2, out, s1, s2, fs, freed, spec, c, p)
    ensures |s1| + |s2| < |t1| + |t2|
    ensures r in out && out != [] && out0 != [] && out[0] == out0[0]
    ensures forall n :: n in out ==> n in out0 || n in fs || fresh(n)
  {
    hide Modulus, Merging, Pending, Accounted, Nonzero, TermsOf, InMerge, Rep;
    InMergeHeads(r0, p1, p2, out0, t1, t2, fs, freed0, spec, c, p);
    if p1.m == p2.m {
      var kept;
      r, kept := MergeEqual(r0, p1, p2, c, p, out0, t1, t2);
      q1, q2, s1, s2 := p1.next, p2.next, t1[1..], t2[1..];
      if kept {
        out, freed := out0 + [p1], freed0;
      } else {
        out, freed := out0, freed0 + {p1};
      }
    } else if p1.m > p2.m {
      MergeFirst(r0, p1, p2, c, p, out0, t1, t2);
      r, q1, q2, s1, s2 := p1, p1.next, p2, t1[1..], t2;
      out, freed := out0 + [p1], freed0;
    } else {
      r := MergeSecond(r0, p1, p2, c, p, out0, t1, t2);
      AccountFresh(fs, out0, r, t1, freed0);
      q1, q2, s1, s2 := p1, p2.next, t1, t2[1..];
      out, freed := out0 + [r], freed0;
    }
    InMergeIntro(r, q1, q2, out, s1, s2, fs, freed, spec, c, p);
  }

  lemma InMergeIntro(r: PolyNode, q1: PolyNode?, q2: PolyNode?,
                     out: seq<PolyNode>, s1: seq<PolyNode>, s2: seq<PolyNode>,
                     fs: seq<PolyNode>, freed: set<PolyNode>, spec: Poly, c: int, p: int)
    requires p > 0 && Merging(r, q1, q2, out, s1, s2)
    requires out != [] && out[0].c == 0 && out[0].m == 0 && out[0] !in fs
    requires Pending(out, s1, s2, c, p) == [Term(0, 0)] + spec
    requires Accounted(fs, out, s1, freed)
    requires Nonzero(TermsOf(s1), p) && Nonzero(TermsOf(s2), p)
    ensures InMerge(r, q1, q2, out, s1, s2, fs, freed, spec, c, p)
    ensures r in out
  {
    hide Pending, Accounted, Nonzero, TermsOf;
    MergingParts(r, q1, q2, out, s1, s2);
  }

  lemma InMergeEnd(r: PolyNode, q1: PolyNode?, q2: PolyNode?,
                   out: seq<PolyNode>, s1: seq<PolyNode>, s2: seq<PolyNode>,
                   fs: seq<PolyNode>, freed: set<PolyNode>, spec: Poly, c: int, p: int)
    requires InMerge(r, q1, q2, out, s1, s2, fs, freed, spec, c, p)
    ensures p > 0 && Merging(r, q1, q2, out, s1, s2) && Nonzero(TermsOf(s2), p) && r in out
    ensures out != [] && out[0].c == 0 && out[0].m == 0 && out[0] !in fs
    ensures Pending(out, s1, s2, c, p) == [Term(0, 0)] + spec
    ensures forall n :: n in fs ==> n in freed || n in out[1..] || n in s1
    ensures forall n :: n in freed ==> n in fs && n !in out && n !in s1
    ensures forall n :: n in s1 ==> n in fs
  {
    hide Pending, Nonzero, TermsOf, Merging;
    MergingParts(r, q1, q2, out, s1, s2);
    assert out == [out[0]] + out[1..];
  }

  method MergeLoop(f: PolyNode, c: int, g: PolyNode, p: int, ghost fs: seq<PolyNode>, ghost gs: seq<PolyNode>)
      returns (h: PolyNode?, ghost hs: seq<PolyNode>, ghost freed: set<PolyNode>)
    requires Modulus(p) && Rep(c, p) && p > 0
    requires IsList(f, fs) && IsList(g, gs) && Disjoint(fs, gs)
    requires Nonzero(TermsOf(fs), p) && Nonzero(TermsOf(gs), p)
    modifies fs
    ensures IsList(h, hs) && TermsOf(hs) == old(Minus(TermsOf(fs), c, TermsOf(gs), p))
    ensures forall n :: n in hs ==> (n in fs || fresh(n)) && n !in freed
    ensures forall n :: n in fs <==> n in freed || (n in hs && !fresh(n))
  {
    hide *;
    ghost var spec := Minus(TermsOf(fs), c, TermsOf(gs), p);
    var root := new PolyNode(0, 0);
    var r: PolyNode := root;
    var q1: PolyNode?, q2: PolyNode? := f, g;
    ghost var out: seq<PolyNode>, s1: seq<PolyNode>, s2: seq<PolyNode> := [root], fs, gs;
    freed := {};
    MergingStart(root, f, g, fs, gs, c, p);
    InMergeIntro(r, q1, q2, out, s1, s2, fs, freed, spec, c, p);
    while q1 != null && q2 != null
      invariant InMerge(r, q1, q2, out, s1, s2, fs, freed, spec, c, p)
      invariant r in out && out[0] == root
      invariant forall n :: n in out ==> n in fs || fresh(n)
      decreases |s1| + |s2|
    {
      InMergeHeads(r, q1, q2, out, s1, s2, fs, freed, spec, c, p);
      r, q1, q2, out, s1, s2, freed := MergeStep(r, q1, q2, c, p, out, s1, s2, fs, freed, spec);
    }
    InMergeEnd(r, q1, q2, out, s1, s2, fs, freed, spec, c, p);
    ghost var rest := FinishMerge(r, q1, q2, c, p, out, s1, s2, Term(0, 0), spec);
    h, hs := root.next, out[1..] + rest;
    assert forall n :: n in out[1..] ==> n in out;
  }
}
