/**
 Facts about squares of reals, used to reason about `math.sqrt` without a
 definition of it. Each fact is stated on the `Square` function so that the
 solver handles the product as one term.
 */
module Squares {

  function Square(x: real): real {
    x * x
  }

  lemma SquareOfZero()
    ensures Square(0.0) == 0.0
  {
  }

  lemma SquareNonNegative(x: real)
    ensures 0.0 <= Square(x)
  {
  }

  lemma SquareOfNegation(x: real)
    ensures Square(-x) == Square(x)
  {
  }

  lemma SquareGrows(r: real, d: real)
    requires 0.0 <= r && 0.0 < d
    ensures Square(r) < Square(r + d)
  {
  }

  lemma SquareNonZero(x: real)
    requires x != 0.0
    ensures Square(x) != 0.0
  {
    SquareOfZero();
    if x > 0.0 {
      SquareGrows(0.0, x);
      assert 0.0 + x == x;
    } else {
      SquareGrows(0.0, -x);
      assert 0.0 + -x == -x;
      SquareOfNegation(x);
    }
  }

  /** Squaring is strictly increasing on the non-negative reals. */
  lemma SquareMonotonic(r: real, v: real)
    requires 0.0 <= r && r < v
    ensures Square(r) < Square(v)
  {
    SquareGrows(r, v - r);
    assert r + (v - r) == v;
  }

  /** The square root of a square is the non-negative base. */
  lemma SquareInjective(r: real, v: real)
    requires 0.0 <= r && 0.0 <= v
    requires Square(r) == Square(v)
    ensures r == v
  {
    if r < v {
      SquareMonotonic(r, v);
    } else if v < r {
      SquareMonotonic(v, r);
    }
  }

  lemma RootZero(m: real)
    ensures Square(m) == 0.0 <==> m == 0.0
  {
    SquareOfZero();
    if m != 0.0 {
      SquareNonZero(m);
    }
  }
}
