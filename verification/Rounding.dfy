/** my_round: to the nearest integer, halves upwards. */
module Rounding {

  function Ceil(f: real): int {
    -(-f).Floor
  }

  function Abs(f: real): real {
    if f < 0.0 then -f else f
  }

  function MyRound(f: real): int {
    if Abs(f - f.Floor as real) < Abs(f - Ceil(f) as real) then f.Floor else Ceil(f)
  }

  lemma CeilBounds(f: real)
    ensures f <= Ceil(f) as real < f + 1.0
    ensures Ceil(f) == f.Floor || Ceil(f) == f.Floor + 1
    ensures Ceil(f) == f.Floor <==> f == f.Floor as real
  {
  }

  /** A half is rounded up, also for negative numbers. */
  lemma RoundsHalfUp(f: real)
    ensures MyRound(f) == (f + 0.5).Floor
    ensures f - 0.5 < MyRound(f) as real <= f + 0.5
  {
    CeilBounds(f);
  }

  lemma RoundIsMonotone(f: real, g: real)
    requires f <= g
    ensures MyRound(f) <= MyRound(g)
  {
    RoundsHalfUp(f);
    RoundsHalfUp(g);
  }

  lemma RoundOfInteger(n: int)
    ensures MyRound(n as real) == n
  {
    RoundsHalfUp(n as real);
  }

  lemma RoundShift(n: int, f: real)
    ensures MyRound(n as real + f) == n + MyRound(f)
  {
    RoundsHalfUp(f);
    RoundsHalfUp(n as real + f);
  }

  /** A value between two integers stays between them when rounded. */
  lemma RoundStaysBetween(f: real, lo: int, hi: int)
    requires lo as real <= f <= hi as real
    ensures lo <= MyRound(f) <= hi
  {
    RoundIsMonotone(lo as real, f);
    RoundIsMonotone(f, hi as real);
    RoundOfInteger(lo);
    RoundOfInteger(hi);
  }
}
