/** Squares of reals: distances are compared squared so that no square root is needed. */
module Squares {
  function Sq(v: real): (r: real)
    ensures r >= 0.0
  {
    v * v
  }
  lemma SquarePositive(v: real)
    requires v != 0.0
    ensures Sq(v) > 0.0
  {
    calc { Sq(v); == v * v; > 0.0; }
  }
  lemma ProductBelow(a: real, b: real, c: real)
    requires 0.0 <= a <= b && 0.0 <= c
    ensures a * c <= b * c
  {}
  lemma ProductStrictlyBelow(a: real, b: real, c: real)
    requires a < b && 0.0 < c
    ensures a * c < b * c
  {}
  lemma SquareStrictlyMonotone(a: real, b: real)
    requires 0.0 <= a && 0.0 <= b
    ensures a < b <==> Sq(a) < Sq(b)
  {
    if a < b {
      ProductBelow(a, b, a);
      ProductStrictlyBelow(a, b, b);
      calc { Sq(a); == a * a; <= b * a; == a * b; < b * b; == Sq(b); }
    } else {
      ProductBelow(b, a, b);
      ProductBelow(b, a, a);
      calc { Sq(b); == b * b; <= a * b; == b * a; <= a * a; == Sq(a); }
    }
  }
  lemma SumOfSquaresPositive(a: real, b: real)
    requires a != 0.0 || b != 0.0
    ensures Sq(a) + Sq(b) > 0.0
  {
    if a != 0.0 { SquarePositive(a); assert Sq(b) >= 0.0; } else { SquarePositive(b); assert Sq(a) >= 0.0; }
  }

  lemma SquareOfDifferenceSymmetric(a: real, b: real)
    ensures Sq(a - b) == Sq(b - a)
  {
    calc { Sq(a - b); == (a - b) * (a - b); == (b - a) * (b - a); == Sq(b - a); }
  }
}
