/** What several of the models need. */
module Basics {
  type byte = b: int | 0 <= b < 256

  function Min(a: int, b: int): int {
    if a < b then a else b
  }

  /** Wrap-around of unsigned arithmetic. */
  function Wrap(x: int, modulus: int): (r: int)
    requires modulus > 0
    ensures 0 <= r < modulus
  {
    x % modulus
  }

  ghost predicate IsSuffix<T>(s: seq<T>, t: seq<T>) {
    |s| <= |t| && t[|t| - |s|..] == s
  }

  lemma SuffixIsTransitive<T>(u: seq<T>, v: seq<T>, t: seq<T>)
    requires IsSuffix(u, v) && IsSuffix(v, t)
    ensures IsSuffix(u, t)
  {
    assert t[|t| - |u|..] == t[|t| - |v|..][|v| - |u|..];
  }

  ghost predicate Ascending(xs: seq<int>) {
    forall i, j :: 0 <= i < j < |xs| ==> xs[i] < xs[j]
  }

  /** The numbers below n. */
  function Below(n: nat): (s: set<nat>)
    ensures |s| == n
    ensures forall i: nat :: i in s <==> i < n
  {
    if n == 0 then {} else Below(n - 1) + {n - 1}
  }

  /** Multiplying by a positive number keeps the order. */
  lemma ScaleOrder(c: real, x: real, y: real)
    requires c > 0.0
    ensures c * x < c * y <==> x < y
    ensures c * x <= c * y <==> x <= y
  {
    assert c * y - c * x == c * (y - x);
  }
}
