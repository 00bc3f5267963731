/**
  Money in integer minor units (cents) and the round-half-to-even rule that
  Python's `round(x, 2)` applies when a share is derived from an amount.
  A quotient p / q of cents is rounded to whole cents.
 */
module Money {

  function Abs(x: int): (r: nat)
    ensures r == x || r == -x
  {
    if x < 0 then -x else x
  }

  /** r is the integer nearest to p / q; on a tie (p / q exactly halfway
      between two integers) r is the even one. */
  predicate IsRoundedQuotient(r: int, p: int, q: int)
    requires q > 0
  {
    var dist := Abs(q * r - p);
    2 * dist < q || (2 * dist == q && r % 2 == 0)
  }

  /** round(p / q) with ties to even, the rule of Python's built-in `round`. */
  function RoundHalfEven(p: int, q: int): (r: int)
    requires q > 0
    ensures IsRoundedQuotient(r, p, q)
  {
    var fl := p / q;
    var rem := p % q;
    assert p == q * fl + rem;
    if 2 * rem < q then
      assert q * fl - p == -rem;
      fl
    else if 2 * rem > q then
      assert q * (fl + 1) - p == q - rem;
      fl + 1
    else
      assert q * fl - p == -rem;
      assert q * (fl + 1) - p == q - rem;
      if fl % 2 == 0 then fl else fl + 1
  }

  /** At most one integer is the half-to-even rounding of p / q, so every
      share the model derives with RoundHalfEven is determined by its meaning. */
  lemma RoundedQuotientUnique(x: int, y: int, p: int, q: int)
    requires q > 0
    requires IsRoundedQuotient(x, p, q) && IsRoundedQuotient(y, p, q)
    ensures x == y
  {
    if x < y {
      HigherIsNotRounding(x, y, p, q);
    } else if y < x {
      HigherIsNotRounding(y, x, p, q);
    }
  }

  /** Above a rounding of p / q no other integer is one. */
  lemma HigherIsNotRounding(lo: int, hi: int, p: int, q: int)
    requires q > 0 && lo < hi
    requires IsRoundedQuotient(lo, p, q)
    ensures !IsRoundedQuotient(hi, p, q)
  {
    var a, b := q * lo - p, q * hi - p;
    ScaledGap(q, lo, hi);
    var g := q * (hi - lo);
    assert b == a + g;
    assert 2 * a >= -q;
    assert 2 * b >= q;
    if 2 * b == q {
      // only possible one above a tie on lo, and a tie rounds to even
      assert g <= q;
      assert hi == lo + 1;
      assert 2 * a == -q;
      assert lo % 2 == 0;
    }
  }

  /** The distance between q * lo and q * hi is at least q, and at least 2q
      when hi and lo are two or more apart. */
  lemma ScaledGap(q: int, lo: int, hi: int)
    requires q > 0 && lo < hi
    ensures q * hi == q * lo + q * (hi - lo)
    ensures q * (hi - lo) >= q
    ensures hi - lo >= 2 ==> q * (hi - lo) >= 2 * q
  {
    var d := hi - lo;
    assert q * d == q + q * (d - 1);
    if d >= 2 {
      assert q * d == 2 * q + q * (d - 2);
    }
  }

  /** Sum of a row of amounts in cents. */
  function Sum(s: seq<int>): int
  {
    if s == [] then 0 else Sum(s[..|s| - 1]) + s[|s| - 1]
  }

  /** Replacing one entry changes the sum by exactly the change of that entry. */
  lemma {:induction false} SumUpdate(s: seq<int>, k: nat, v: int)
    requires k < |s|
    ensures Sum(s[k := v]) == Sum(s) - s[k] + v
  {
    var t := s[k := v];
    if k == |s| - 1 {
      assert t[..|t| - 1] == s[..|s| - 1];
    } else {
      assert t[..|t| - 1] == s[..|s| - 1][k := v];
      SumUpdate(s[..|s| - 1], k, v);
    }
  }
}
