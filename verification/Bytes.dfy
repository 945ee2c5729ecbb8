/** Bytes, machine words and byte order on an OX connection. */
module Bytes {
  import opened Basics

  type Byte = b: int | 0 <= b < 256

  datatype ByteOrder = Big | Little

  predicate IsWord(u: int) { 0 <= u < TWO_TO_THE_32 }

  function Reverse<T>(s: seq<T>): (r: seq<T>)
    ensures |r| == |s| && forall i :: 0 <= i < |s| ==> r[i] == s[|s| - 1 - i]
  {
    seq(|s|, i requires 0 <= i < |s| => s[|s| - 1 - i])
  }

  lemma ReverseTwice<T>(s: seq<T>)
    ensures Reverse(Reverse(s)) == s
  {
  }

  /** Little-endian digits of u in base 256. */
  function Digits256(u: nat, n: nat): (s: seq<Byte>)
    ensures |s| == n
  {
    if n == 0 then [] else [u % 256] + Digits256(u / 256, n - 1)
  }

  function Value256(s: seq<Byte>): nat {
    if s == [] then 0 else s[0] + 256 * Value256(s[1..])
  }

  function Pow256(n: nat): (r: nat)
    ensures r > 0
  {
    if n == 0 then 1 else 256 * Pow256(n - 1)
  }

  lemma {:induction false} ValueOfDigits(u: nat, n: nat)
    requires u < Pow256(n)
    ensures Value256(Digits256(u, n)) == u
  {
    if n > 0 {
      assert u / 256 < Pow256(n - 1);
      ValueOfDigits(u / 256, n - 1);
      var s := Digits256(u, n);
      assert s[1..] == Digits256(u / 256, n - 1);
    }
  }

  function InOrder(s: seq<Byte>, bo: ByteOrder): (r: seq<Byte>)
    ensures |r| == |s|
  {
    if bo.Little? then s else Reverse(s)
  }

  lemma InOrderTwice(s: seq<Byte>, bo: ByteOrder)
    ensures InOrder(InOrder(s, bo), bo) == s
  {
    ReverseTwice(s);
  }

  /** The four bytes of an unsigned word. */
  function WordBytes(u: int, bo: ByteOrder): (s: seq<Byte>)
    requires IsWord(u)
    ensures |s| == 4
  {
    InOrder(Digits256(u, 4), bo)
  }

  function BytesWord(s: seq<Byte>, bo: ByteOrder): (u: nat)
    requires |s| == 4
  {
    Value256(InOrder(s, bo))
  }

  lemma {:induction false} ValueBound(s: seq<Byte>)
    ensures Value256(s) < Pow256(|s|)
  {
    if s != [] {
      ValueBound(s[1..]);
    }
  }

  lemma BytesWordRange(s: seq<Byte>, bo: ByteOrder)
    requires |s| == 4
    ensures IsWord(BytesWord(s, bo))
  {
    ValueBound(InOrder(s, bo));
    assert Pow256(4) == TWO_TO_THE_32 by { PowFour(); }
  }

  lemma PowFour()
    ensures Pow256(4) == TWO_TO_THE_32
  {
    assert Pow256(1) == 256;
    assert Pow256(2) == 0x1_0000;
    assert Pow256(3) == 0x100_0000;
  }

  lemma WordRoundTrip(u: int, bo: ByteOrder)
    requires IsWord(u)
    ensures BytesWord(WordBytes(u, bo), bo) == u
  {
    PowFour();
    InOrderTwice(Digits256(u, 4), bo);
    ValueOfDigits(u, 4);
  }

  /** Two's complement. */
  function ToWord(x: int): (u: int)
    requires IsInt32(x)
    ensures IsWord(u)
  {
    if x < 0 then x + TWO_TO_THE_32 else x
  }

  function FromWord(u: int): (x: int)
    requires IsWord(u)
    ensures IsInt32(x)
  {
    if u >= TWO_TO_THE_31 then u - TWO_TO_THE_32 else u
  }

  function IntBytes(x: int, bo: ByteOrder): (s: seq<Byte>)
    requires IsInt32(x)
    ensures |s| == 4
  {
    WordBytes(ToWord(x), bo)
  }

  function BytesInt(s: seq<Byte>, bo: ByteOrder): (x: int)
    requires |s| == 4
    ensures IsInt32(x)
  {
    BytesWordRange(s, bo);
    FromWord(BytesWord(s, bo))
  }

  lemma IntRoundTrip(x: int, bo: ByteOrder)
    requires IsInt32(x)
    ensures BytesInt(IntBytes(x, bo), bo) == x
  {
    WordRoundTrip(ToWord(x), bo);
  }
}
