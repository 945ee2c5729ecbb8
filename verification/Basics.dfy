/** Notions shared by all parts. */
module Basics {

  datatype Option<T> = None | Some(value: T)

  function Abs(x: int): nat { if x < 0 then -x else x }

  const TWO_TO_THE_32: int := 0x1_0000_0000
  const TWO_TO_THE_31: int := 0x8000_0000

  /** The range of a 32-bit signed integer. */
  predicate IsInt32(x: int) { -TWO_TO_THE_31 <= x < TWO_TO_THE_31 }

  ghost predicate Distinct<T>(s: seq<T>) { forall i, j :: 0 <= i < j < |s| ==> s[i] != s[j] }

  lemma QuotientRemainder(a: nat, b: nat)
    requires b > 0
    ensures a == b * (a / b) + a % b && 0 <= a % b < b
  {
  }

  lemma Assoc<T>(a: seq<T>, b: seq<T>, c: seq<T>)
    ensures a + b + c == a + (b + c)
  {
  }

  lemma AssocInside<T>(a: seq<T>, b: seq<T>, c: seq<T>, d: seq<T>)
    ensures a + (b + c) + d == a + (b + (c + d))
  {
  }
}
